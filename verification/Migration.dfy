/** `migrate_all`: copy every key of one store into another, skipping what is already there. */
module Migration {
  import opened Prelude
  import opened Stores

  /** What goes wrong at one key. Asking the destination raises, which ends the run. Reading the source or
      writing the destination fails, which is counted. After the copy the progress callback or the clean-up
      of the staging file fails: with an `OSError`, which is counted although the copy was counted too, or
      with another exception, which ends the run. */
  datatype Trouble = NoTrouble | AskRaises | CopyFails | LateFails | LateRaises

  /** `aborted` stands for the exception that leaves `migrate_all` without a result. */
  datatype Tally = Tally(copied: nat, skipped: nat, failed: nat, errors: seq<Key>, aborted: bool)

  /** The destination and the counters after the first keys; `late` lists the keys that were counted both as
      copied and as failed, which no counter tells. */
  datatype Progress = Progress(objects: map<Key, Blob>, tally: Tally, late: seq<Key>)

  const NOTHING_YET := Tally(0, 0, 0, [], false)

  function Copied(p: Progress, src: map<Key, Blob>, key: Key): Progress
    requires key in src
  {
    p.(objects := p.objects[key := src[key]], tally := p.tally.(copied := p.tally.copied + 1))
  }

  function Failed(p: Progress, key: Key): Progress {
    p.(tally := p.tally.(failed := p.tally.failed + 1, errors := p.tally.errors + [key]))
  }

  function CopyKey(p: Progress, src: map<Key, Blob>, key: Key, overwrite: bool, trouble: Trouble): Progress {
    var t := p.tally;
    if t.aborted then p
    else if !overwrite && trouble == AskRaises then p.(tally := t.(aborted := true))
    else if !overwrite && key in p.objects then p.(tally := t.(skipped := t.skipped + 1))
    else if trouble == CopyFails || key !in src then Failed(p, key)
    else
      var done := Copied(p, src, key);
      match trouble
      case LateFails => Failed(done, key).(late := p.late + [key])
      case LateRaises => done.(tally := done.tally.(aborted := true))
      case _ => done
  }

  function Run(dst: map<Key, Blob>, src: map<Key, Blob>, keys: seq<Key>, overwrite: bool, trouble: nat -> Trouble)
    : Progress
  {
    if keys == [] then Progress(dst, NOTHING_YET, [])
    else
      var n := |keys| - 1;
      CopyKey(Run(dst, src, keys[..n], overwrite, trouble), src, keys[n], overwrite, trouble(n))
  }

  /** The keys are those of the source, the destination and the counters those of the reference run; and what
      a user relies on: each key is counted once but for the late ones, nothing is overwritten unasked,
      without failures everything is there, and then a rerun finds nothing to do, whatever happens to it. */
  method MigrateAll(src: Backend, dst: Backend, prefix: string, overwrite: bool, trouble: nat -> Trouble)
    returns (keys: seq<Key>, tally: Tally, ghost late: seq<Key>)
    requires src != dst
    modifies dst
    ensures Sorted(keys) && Elements(keys) == KeysUnder(src.objects, prefix)
    ensures Progress(dst.objects, tally, late) == Run(old(dst.objects), src.objects, keys, overwrite, trouble)
    ensures !tally.aborted ==> late == StruckLate(old(dst.objects), src.objects, keys, overwrite, trouble)
    ensures !tally.aborted ==> tally.copied + tally.skipped + tally.failed == |keys| + |late|
    ensures !tally.aborted ==>
      (tally.copied + tally.skipped + tally.failed == |keys|
       <==> forall i :: 0 <= i < |keys| ==>
              !StrikesLate(old(dst.objects), src.objects, keys[i], overwrite, trouble(i)))
    ensures !overwrite ==>
      forall k :: k in old(dst.objects) ==> k in dst.objects && dst.objects[k] == old(dst.objects)[k]
    ensures !tally.aborted && tally.failed == 0 ==> KeysUnder(src.objects, prefix) <= dst.objects.Keys
    ensures !tally.aborted && tally.failed == 0 ==> forall again: nat -> Trouble ::
      var p := Run(dst.objects, src.objects, keys, false, again);
      p.objects == dst.objects && p.tally.copied == p.tally.failed == 0
  {
    hide CopyKey, KeysUnder, Sorted, Elements, StrikesLate, StruckLate;
    keys := src.List(prefix);
    tally, late := NOTHING_YET, [];
    for i := 0 to |keys|
      invariant Progress(dst.objects, tally, late) == Run(old(dst.objects), src.objects, keys[..i], overwrite, trouble)
    {
      assert keys[..i + 1][..i] == keys[..i];
      if !tally.aborted {
        tally, late := MigrateKey(src, dst, keys[i], overwrite, trouble(i), tally, late);
      }
      AbortedStays(src.objects, keys[..i + 1], old(dst.objects), overwrite, trouble);
    }
    assert keys[..|keys|] == keys;
    ListedLaws(old(dst.objects), src.objects, keys, prefix, overwrite, trouble);
  }

  /** One iteration. */
  method MigrateKey(src: Backend, dst: Backend, key: Key, overwrite: bool, trouble: Trouble, t: Tally,
                    ghost late: seq<Key>)
    returns (tally: Tally, ghost late': seq<Key>)
    requires src != dst && !t.aborted
    modifies dst
    ensures Progress(dst.objects, tally, late')
      == CopyKey(Progress(old(dst.objects), t, late), src.objects, key, overwrite, trouble)
  {
    late' := late;
    if !overwrite {
      var present := dst.Exists(key, trouble == AskRaises);
      if present.AskFailed? {
        return t.(aborted := true), late;
      }
      if present.yes {
        return t.(skipped := t.skipped + 1), late;
      }
    }
    var fetched := src.Get(key, trouble == CopyFails);
    if !fetched.Found? {
      return t.(failed := t.failed + 1, errors := t.errors + [key]), late;
    }
    var _ := dst.Put(key, fetched.blob, false);
    tally := t.(copied := t.copied + 1);
    if trouble == LateFails {
      tally := tally.(failed := tally.failed + 1, errors := tally.errors + [key]);
      late' := late + [key];
    } else if trouble == LateRaises {
      tally := tally.(aborted := true);
    }
  }

  lemma AbortedStays(src: map<Key, Blob>, keys: seq<Key>, dst: map<Key, Blob>, overwrite: bool, trouble: nat -> Trouble)
    requires keys != []
    ensures var p := Run(dst, src, keys[..|keys| - 1], overwrite, trouble);
      p.tally.aborted ==> Run(dst, src, keys, overwrite, trouble) == p
  {
  }

  // What a run keeps.

  /** Every failure is listed, and every key is counted once, but for the late ones, which count twice. */
  lemma {:induction false} LateCountTwice(dst: map<Key, Blob>, src: map<Key, Blob>, keys: seq<Key>, overwrite: bool,
                                          trouble: nat -> Trouble)
    ensures var p := Run(dst, src, keys, overwrite, trouble);
      var t := p.tally;
      && |t.errors| == t.failed && |p.late| <= t.failed && t.copied + t.skipped + t.failed <= |keys| + |p.late|
      && (!t.aborted ==> t.copied + t.skipped + t.failed == |keys| + |p.late|)
    decreases |keys|
  {
    if keys != [] {
      LateCountTwice(dst, src, keys[..|keys| - 1], overwrite, trouble);
    }
  }

  /** The trouble strikes after a copy that is made: the key is there to read, and is not skipped. */
  predicate StrikesLate(dst: map<Key, Blob>, src: map<Key, Blob>, key: Key, overwrite: bool, trouble: Trouble) {
    trouble == LateFails && key in src && (overwrite || key !in dst)
  }

  /** The keys that are struck, told from what the call starts with. */
  function StruckLate(dst: map<Key, Blob>, src: map<Key, Blob>, keys: seq<Key>, overwrite: bool,
                      trouble: nat -> Trouble): seq<Key>
  {
    if keys == [] then []
    else
      var n := |keys| - 1;
      StruckLate(dst, src, keys[..n], overwrite, trouble)
      + if StrikesLate(dst, src, keys[n], overwrite, trouble(n)) then [keys[n]] else []
  }

  lemma {:induction false} NoneIsStruck(dst: map<Key, Blob>, src: map<Key, Blob>, keys: seq<Key>, overwrite: bool,
                                        trouble: nat -> Trouble)
    ensures StruckLate(dst, src, keys, overwrite, trouble) == []
      <==> forall i :: 0 <= i < |keys| ==> !StrikesLate(dst, src, keys[i], overwrite, trouble(i))
    decreases |keys|
  {
    if keys != [] {
      var n := |keys| - 1;
      NoneIsStruck(dst, src, keys[..n], overwrite, trouble);
      assert forall i :: 0 <= i < n ==> keys[..n][i] == keys[i];
    }
  }

  /** Distinct keys do not get in each other's way. */
  lemma {:induction false} LateAreStruck(dst: map<Key, Blob>, src: map<Key, Blob>, keys: seq<Key>, overwrite: bool,
                                         trouble: nat -> Trouble)
    requires NoDuplicates(keys)
    ensures var p := Run(dst, src, keys, overwrite, trouble);
      !p.tally.aborted ==> p.late == StruckLate(dst, src, keys, overwrite, trouble)
    decreases |keys|
  {
    if keys != [] {
      hide OnlyGrown;
      var n := |keys| - 1;
      LateAreStruck(dst, src, keys[..n], overwrite, trouble);
      if !overwrite {
        LastIsAsBefore(dst, src, keys, trouble);
      }
    }
  }

  lemma LastIsAsBefore(dst: map<Key, Blob>, src: map<Key, Blob>, keys: seq<Key>, trouble: nat -> Trouble)
    requires keys != [] && NoDuplicates(keys)
    ensures var n := |keys| - 1; keys[n] in Run(dst, src, keys[..n], false, trouble).objects <==> keys[n] in dst
  {
    hide Run;
    NothingIsOverwritten(dst, src, keys[..|keys| - 1], trouble);
  }

  /** The counters exceed the total by the keys that are struck late, so they add up to it exactly when no
      trouble strikes late at a key that is copied. */
  lemma TallyBalances(dst: map<Key, Blob>, src: map<Key, Blob>, keys: seq<Key>, overwrite: bool,
                      trouble: nat -> Trouble)
    requires NoDuplicates(keys)
    ensures var t := Run(dst, src, keys, overwrite, trouble).tally;
      && |t.errors| == t.failed
      && (!t.aborted ==>
            && t.copied + t.skipped + t.failed == |keys| + |StruckLate(dst, src, keys, overwrite, trouble)|
            && (t.copied + t.skipped + t.failed == |keys|
                <==> forall i :: 0 <= i < |keys| ==> !StrikesLate(dst, src, keys[i], overwrite, trouble(i))))
  {
    hide Run, StrikesLate;
    LateCountTwice(dst, src, keys, overwrite, trouble);
    LateAreStruck(dst, src, keys, overwrite, trouble);
    NoneIsStruck(dst, src, keys, overwrite, trouble);
  }

  /** A late failure is all it takes. */
  lemma LateFailureUnbalances(dst: map<Key, Blob>, src: map<Key, Blob>, key: Key)
    requires key in src && key !in dst
    ensures var p := Run(dst, src, [key], false, i => LateFails);
      p.tally == Tally(1, 0, 1, [key], false) && key in p.objects
  {
    assert [key][..0] == [];
    assert Run(dst, src, [], false, i => LateFails) == Progress(dst, NOTHING_YET, []);
  }

  /** Everything that was there is there unchanged; what is new is a value of the source. */
  ghost predicate OnlyGrown(dst: map<Key, Blob>, after: map<Key, Blob>, src: map<Key, Blob>, keys: seq<Key>) {
    && (forall k :: k in dst ==> k in after && after[k] == dst[k])
    && (forall k :: k in after && k !in dst ==> k in keys && k in src && after[k] == src[k])
  }

  lemma GrowStep(dst: map<Key, Blob>, p: Progress, src: map<Key, Blob>, keys: seq<Key>, key: Key, trouble: Trouble)
    requires OnlyGrown(dst, p.objects, src, keys)
    ensures OnlyGrown(dst, CopyKey(p, src, key, false, trouble).objects, src, keys + [key])
  {
  }

  /** Without `overwrite` the destination only grows, and only by values of the source. */
  lemma {:induction false} NothingIsOverwritten(dst: map<Key, Blob>, src: map<Key, Blob>, keys: seq<Key>,
                                                trouble: nat -> Trouble)
    ensures OnlyGrown(dst, Run(dst, src, keys, false, trouble).objects, src, keys)
    decreases |keys|
  {
    if keys != [] {
      hide CopyKey, OnlyGrown;
      var n := |keys| - 1;
      NothingIsOverwritten(dst, src, keys[..n], trouble);
      assert keys == keys[..n] + [keys[n]];
      GrowStep(dst, Run(dst, src, keys[..n], false, trouble), src, keys[..n], keys[n], trouble(n));
    }
  }

  /** The keys reported as errors are those the destination still lacks, and the late ones, which it has. */
  ghost predicate ErrorsExplained(p: Progress, keys: seq<Key>) {
    && (forall k :: k in p.tally.errors ==> k in keys && (k !in p.objects || k in p.late))
    && (forall k :: k in p.late ==> k in p.tally.errors && k in p.objects)
    && (!p.tally.aborted ==> forall k :: k in keys && k !in p.objects ==> k in p.tally.errors)
  }

  lemma ErrorsStep(p: Progress, src: map<Key, Blob>, keys: seq<Key>, key: Key, trouble: Trouble)
    requires ErrorsExplained(p, keys) && key !in keys
    ensures ErrorsExplained(CopyKey(p, src, key, false, trouble), keys + [key])
  {
  }

  lemma {:induction false} ErrorsAreWhatIsMissing(dst: map<Key, Blob>, src: map<Key, Blob>, keys: seq<Key>,
                                                  trouble: nat -> Trouble)
    requires NoDuplicates(keys)
    ensures ErrorsExplained(Run(dst, src, keys, false, trouble), keys)
    decreases |keys|
  {
    if keys != [] {
      hide CopyKey, ErrorsExplained;
      var n := |keys| - 1;
      ErrorsAreWhatIsMissing(dst, src, keys[..n], trouble);
      assert keys == keys[..n] + [keys[n]];
      ErrorsStep(Run(dst, src, keys[..n], false, trouble), src, keys[..n], keys[n], trouble(n));
    }
  }

  lemma {:induction false} PresentIsSkipped(dst: map<Key, Blob>, src: map<Key, Blob>, keys: seq<Key>,
                                            trouble: nat -> Trouble)
    requires forall k :: k in keys ==> k in dst
    ensures var p := Run(dst, src, keys, false, trouble);
      && p.objects == dst && p.tally.copied == p.tally.failed == 0
      && (!p.tally.aborted ==> p.tally.skipped == |keys|)
    decreases |keys|
  {
    if keys != [] {
      PresentIsSkipped(dst, src, keys[..|keys| - 1], trouble);
    }
  }

  /** After a run without failures a rerun copies nothing and changes nothing, whatever happens to it. */
  lemma RerunCopiesNothing(dst: map<Key, Blob>, src: map<Key, Blob>, keys: seq<Key>, first: nat -> Trouble,
                           second: nat -> Trouble)
    requires NoDuplicates(keys)
    requires var t := Run(dst, src, keys, false, first).tally; !t.aborted && t.failed == 0
    ensures var after := Run(dst, src, keys, false, first).objects;
      var again := Run(after, src, keys, false, second);
      && again.objects == after && again.tally.copied == again.tally.failed == 0
      && (!again.tally.aborted ==> again.tally.skipped == |keys|)
  {
    TallyBalances(dst, src, keys, false, first);
    ErrorsAreWhatIsMissing(dst, src, keys, first);
    PresentIsSkipped(Run(dst, src, keys, false, first).objects, src, keys, second);
  }

  /** What a complete migration leaves behind. */
  function Complete(dst: map<Key, Blob>, src: map<Key, Blob>, keys: seq<Key>, overwrite: bool): map<Key, Blob> {
    if overwrite then dst + Copies(src, keys) else Copies(src, keys) + dst
  }

  function Copies(src: map<Key, Blob>, keys: seq<Key>): map<Key, Blob> {
    map k | k in keys && k in src :: src[k]
  }

  lemma CopiesSnoc(src: map<Key, Blob>, keys: seq<Key>, k: Key)
    requires k in src
    ensures Copies(src, keys + [k]) == Copies(src, keys)[k := src[k]]
  {
  }

  lemma MergeOne(under: map<Key, Blob>, over: map<Key, Blob>, k: Key, blob: Blob)
    ensures under + over[k := blob] == (under + over)[k := blob]
    ensures under[k := blob] + over == if k in over then under + over else (under + over)[k := blob]
  {
  }

  const SMOOTHLY: nat -> Trouble := i => NoTrouble

  lemma CompleteSnoc(dst: map<Key, Blob>, src: map<Key, Blob>, keys: seq<Key>, k: Key, overwrite: bool)
    requires k in src
    ensures var front := Complete(dst, src, keys, overwrite);
      Complete(dst, src, keys + [k], overwrite) == if !overwrite && k in front then front else front[k := src[k]]
  {
    CopiesSnoc(src, keys, k);
    var copies := Copies(src, keys);
    assert k in copies ==> copies[k] == src[k];
    hide Copies;
    if overwrite {
      MergeOne(dst, copies, k, src[k]);
    } else {
      MergeOne(copies, dst, k, src[k]);
      assert k in copies && k !in dst ==> (copies + dst)[k] == src[k];
      assert k in copies && k !in dst ==> (copies + dst)[k := src[k]] == copies + dst;
    }
  }

  lemma {:induction false} SmoothRunCompletes(dst: map<Key, Blob>, src: map<Key, Blob>, keys: seq<Key>, overwrite: bool)
    requires forall k :: k in keys ==> k in src
    ensures var p := Run(dst, src, keys, overwrite, SMOOTHLY);
      p.objects == Complete(dst, src, keys, overwrite) && !p.tally.aborted && p.tally.failed == 0
    decreases |keys|
  {
    if keys == [] {
      assert Complete(dst, src, [], overwrite) == dst;
    } else {
      hide Complete;
      var n := |keys| - 1;
      SmoothRunCompletes(dst, src, keys[..n], overwrite);
      assert keys == keys[..n] + [keys[n]];
      CompleteSnoc(dst, src, keys[..n], keys[n], overwrite);
    }
  }

  lemma SameCompletion(dst: map<Key, Blob>, partway: map<Key, Blob>, src: map<Key, Blob>, keys: seq<Key>)
    requires OnlyGrown(dst, partway, src, keys)
    ensures Complete(partway, src, keys, false) == Complete(dst, src, keys, false)
  {
    var a, b := Complete(partway, src, keys, false), Complete(dst, src, keys, false);
    assert forall k :: k in a <==> k in b;
    assert forall k :: k in a ==> a[k] == b[k];
  }

  /** However a run was interrupted or failed, running it again without trouble leaves exactly what one
      untroubled run would have left. */
  lemma ResumesCleanly(dst: map<Key, Blob>, src: map<Key, Blob>, keys: seq<Key>, trouble: nat -> Trouble)
    requires forall k :: k in keys ==> k in src
    ensures Run(Run(dst, src, keys, false, trouble).objects, src, keys, false, SMOOTHLY).objects
         == Run(dst, src, keys, false, SMOOTHLY).objects
  {
    hide Run, CopyKey, Complete, OnlyGrown;
    var partway := Run(dst, src, keys, false, trouble).objects;
    NothingIsOverwritten(dst, src, keys, trouble);
    SmoothRunCompletes(dst, src, keys, false);
    SmoothRunCompletes(partway, src, keys, false);
    SameCompletion(dst, partway, src, keys);
  }

  lemma {:induction false} OverwrittenIsPresent(dst: map<Key, Blob>, src: map<Key, Blob>, keys: seq<Key>,
                                                trouble: nat -> Trouble)
    ensures var p := Run(dst, src, keys, true, trouble);
      !p.tally.aborted && p.tally.failed == 0 ==> forall k :: k in keys ==> k in p.objects
    ensures dst.Keys <= Run(dst, src, keys, true, trouble).objects.Keys
    decreases |keys|
  {
    if keys != [] {
      var n := |keys| - 1;
      OverwrittenIsPresent(dst, src, keys[..n], trouble);
      assert keys == keys[..n] + [keys[n]];
    }
  }

  /** The laws for the keys a store lists. */
  lemma ListedLaws(dst: map<Key, Blob>, src: map<Key, Blob>, keys: seq<Key>, prefix: string, overwrite: bool,
                   trouble: nat -> Trouble)
    requires Sorted(keys) && Elements(keys) == KeysUnder(src, prefix)
    ensures var p := Run(dst, src, keys, overwrite, trouble);
      && (!p.tally.aborted ==>
            && p.late == StruckLate(dst, src, keys, overwrite, trouble)
            && p.tally.copied + p.tally.skipped + p.tally.failed == |keys| + |p.late|
            && (p.tally.copied + p.tally.skipped + p.tally.failed == |keys|
                <==> forall i :: 0 <= i < |keys| ==> !StrikesLate(dst, src, keys[i], overwrite, trouble(i))))
      && (!overwrite ==> forall k :: k in dst ==> k in p.objects && p.objects[k] == dst[k])
      && (!p.tally.aborted && p.tally.failed == 0 ==>
            && KeysUnder(src, prefix) <= p.objects.Keys
            && forall again: nat -> Trouble ::
                 var q := Run(p.objects, src, keys, false, again);
                 q.objects == p.objects && q.tally.copied == q.tally.failed == 0)
  {
    hide CopyKey, Run, StrikesLate, StruckLate;
    var p := Run(dst, src, keys, overwrite, trouble);
    ListedKeys(src, keys, prefix);
    TallyBalances(dst, src, keys, overwrite, trouble);
    LateAreStruck(dst, src, keys, overwrite, trouble);
    if overwrite {
      OverwrittenIsPresent(dst, src, keys, trouble);
    } else {
      NothingIsOverwritten(dst, src, keys, trouble);
      ErrorsAreWhatIsMissing(dst, src, keys, trouble);
    }
    if !p.tally.aborted && p.tally.failed == 0 {
      assert forall k :: k in Elements(keys) ==> k in keys;
      forall again: nat -> Trouble
        ensures Run(p.objects, src, keys, false, again).objects == p.objects
        ensures Run(p.objects, src, keys, false, again).tally.copied == 0
        ensures Run(p.objects, src, keys, false, again).tally.failed == 0
      {
        PresentIsSkipped(p.objects, src, keys, again);
      }
    }
  }

  /** The keys a store lists are distinct and its own, as the laws above ask for. */
  lemma ListedKeys(src: map<Key, Blob>, keys: seq<Key>, prefix: string)
    requires Sorted(keys) && Elements(keys) == KeysUnder(src, prefix)
    ensures NoDuplicates(keys) && forall k :: k in keys ==> k in src
  {
    forall i, j | 0 <= i < j < |keys|
      ensures keys[i] != keys[j]
    {
      BeforeIsStrict(keys[i], keys[j]);
    }
    forall k | k in keys
      ensures k in src
    {
      assert k in Elements(keys);
    }
  }
}
