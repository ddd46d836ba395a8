/** Blob stores: one backend, and the hybrid of a primary and a backup, seen as one overlay map. */
module Stores {
  type Key = string
  type Blob = seq<bv8>

  // Lexicographic order of keys.

  predicate Before(a: Key, b: Key) {
    if b == [] then false
    else if a == [] then true
    else a[0] < b[0] || (a[0] == b[0] && Before(a[1..], b[1..]))
  }

  lemma {:induction false} BeforeIsStrict(a: Key, b: Key)
    ensures !(Before(a, b) && Before(b, a)) && !Before(a, a)
    ensures a != b ==> Before(a, b) || Before(b, a)
  {
    if a != [] && b != [] {
      BeforeIsStrict(a[1..], b[1..]);
      assert a[0] == b[0] && a[1..] == b[1..] ==> a == b by {
        assert a == [a[0]] + a[1..] && b == [b[0]] + b[1..];
      }
    }
    if a != [] {
      BeforeIsStrict(a[1..], a[1..]);
    }
  }

  lemma {:induction false} BeforeIsTransitive(a: Key, b: Key, c: Key)
    requires Before(a, b) && Before(b, c)
    ensures Before(a, c)
  {
    if a != [] && a[0] == b[0] && b[0] == c[0] {
      BeforeIsTransitive(a[1..], b[1..], c[1..]);
    }
  }

  ghost predicate Sorted(s: seq<Key>) {
    forall i, j :: 0 <= i < j < |s| ==> Before(s[i], s[j])
  }

  function Elements(s: seq<Key>): set<Key> {
    set k | k in s
  }

  /** The sorted sequence of a set is unique, and holds no key twice. */
  lemma {:induction false} SortedIsUnique(a: seq<Key>, b: seq<Key>)
    requires Sorted(a) && Sorted(b) && Elements(a) == Elements(b)
    ensures a == b
  {
    if a == [] {
      assert forall i :: 0 <= i < |b| ==> b[i] in Elements(b);
    } else {
      assert a[0] in Elements(a) && b != [] by {
        assert a[0] in Elements(b);
      }
      FirstIsLeast(a, b[0]);
      FirstIsLeast(b, a[0]);
      BeforeIsStrict(a[0], b[0]);
      RestOfSorted(a);
      RestOfSorted(b);
      SortedIsUnique(a[1..], b[1..]);
    }
  }

  lemma FirstIsLeast(s: seq<Key>, k: Key)
    requires Sorted(s) && s != [] && k in Elements(s)
    ensures k == s[0] || Before(s[0], k)
  {
    var i :| 0 <= i < |s| && s[i] == k;
  }

  lemma RestOfSorted(s: seq<Key>)
    requires Sorted(s) && s != []
    ensures Sorted(s[1..]) && Elements(s[1..]) == Elements(s) - {s[0]}
  {
    assert s == [s[0]] + s[1..];
    forall k | k in s[1..]
      ensures k != s[0]
    {
      var i :| 0 <= i < |s[1..]| && s[1..][i] == k;
      assert Before(s[0], s[i + 1]);
      BeforeIsStrict(s[0], s[0]);
    }
  }

  lemma {:induction false} LeastExists(s: set<Key>) returns (least: Key)
    requires s != {}
    ensures least in s && forall k :: k in s && k != least ==> Before(least, k)
    decreases |s|
  {
    var x :| x in s;
    if s == {x} {
      least := x;
    } else {
      assert s - {x} != {};
      var y := LeastExists(s - {x});
      BeforeIsStrict(x, y);
      least := if Before(x, y) then x else y;
      forall k | k in s && k != least
        ensures Before(least, k)
      {
        if k != x && least == x && k != y {
          BeforeIsTransitive(x, y, k);
        }
      }
    }
  }

  /** `sorted` of a set. */
  method SortKeys(keys: set<Key>) returns (sorted: seq<Key>)
    ensures Sorted(sorted) && Elements(sorted) == keys
  {
    sorted := [];
    var rest := keys;
    while rest != {}
      invariant Sorted(sorted) && Elements(sorted) + rest == keys
      invariant forall a, b :: a in sorted && b in rest ==> Before(a, b)
      decreases |rest|
    {
      ghost var witnessed := LeastExists(rest);
      var least :| least in rest && forall k :: k in rest && k != least ==> Before(least, k);
      assert least !in rest - {least};
      sorted := sorted + [least];
      rest := rest - {least};
    }
  }

  // One backend.

  datatype Fetched = Found(blob: Blob) | Missing | Failed

  datatype Asked = Answer(yes: bool) | AskFailed

  predicate HasPrefix(k: Key, prefix: string) {
    prefix <= k
  }

  /** A backend; every call may fail with a `StorageError`, and then changes nothing. */
  class Backend {
    var objects: map<Key, Blob>

    constructor (objects: map<Key, Blob>)
      ensures this.objects == objects
    {
      this.objects := objects;
    }

    method Put(key: Key, blob: Blob, broken: bool) returns (raised: bool)
      modifies this
      ensures raised == broken
      ensures objects == if broken then old(objects) else old(objects)[key := blob]
    {
      if !broken {
        objects := objects[key := blob];
      }
      return broken;
    }

    method Get(key: Key, broken: bool) returns (r: Fetched)
      ensures r == Lookup(objects, key, broken)
    {
      r := Lookup(objects, key, broken);
    }

    method Exists(key: Key, broken: bool) returns (r: Asked)
      ensures r == if broken then AskFailed else Answer(key in objects)
    {
      r := if broken then AskFailed else Answer(key in objects);
    }

    method Delete(key: Key, broken: bool) returns (raised: bool)
      modifies this
      ensures raised == broken
      ensures objects == if broken then old(objects) else old(objects) - {key}
    {
      if !broken {
        objects := objects - {key};
      }
      return broken;
    }

    method List(prefix: string) returns (keys: seq<Key>)
      ensures Sorted(keys) && Elements(keys) == KeysUnder(objects, prefix)
    {
      keys := SortKeys(KeysUnder(objects, prefix));
    }
  }

  function Lookup(m: map<Key, Blob>, key: Key, broken: bool): Fetched {
    if broken then Failed else if key in m then Found(m[key]) else Missing
  }

  function KeysUnder(m: map<Key, Blob>, prefix: string): set<Key> {
    set k | k in m && HasPrefix(k, prefix)
  }

  // The hybrid.

  /** One map in which the primary overrides the backup. */
  function Overlay(primary: map<Key, Blob>, backup: map<Key, Blob>): map<Key, Blob> {
    backup + primary
  }

  class HybridStore {
    const primary: Backend
    const backup: Backend
    const mirror: bool

    ghost predicate Valid() {
      primary != backup
    }

    ghost function View(): map<Key, Blob>
      reads primary, backup
    {
      Overlay(primary.objects, backup.objects)
    }

    constructor (primary: Backend, backup: Backend, mirror: bool)
      requires primary != backup
      ensures Valid() && this.primary == primary && this.backup == backup && this.mirror == mirror
    {
      this.primary, this.backup, this.mirror := primary, backup, mirror;
    }

    /** In either mode, and whatever the backup does, a put that returns has updated the one map. */
    method Put(key: Key, blob: Blob, primaryBroken: bool, backupBroken: bool) returns (raised: bool)
      requires Valid()
      modifies primary, backup
      ensures raised == primaryBroken
      ensures View() == if raised then old(View()) else old(View())[key := blob]
      ensures raised ==> primary.objects == old(primary.objects) && backup.objects == old(backup.objects)
      ensures !raised ==> key in primary.objects
      ensures backup.objects == if mirror && !raised && !backupBroken then old(backup.objects)[key := blob]
                                else old(backup.objects)
    {
      raised := primary.Put(key, blob, primaryBroken);
      if raised || !mirror {
        return;
      }
      var _ := backup.Put(key, blob, backupBroken);
    }

    /** The backup is asked only when the primary does not have the key, never when the primary fails. */
    method Get(key: Key, primaryBroken: bool, backupBroken: bool) returns (r: Fetched)
      requires Valid()
      ensures r.Failed? <==> primaryBroken || (key !in primary.objects && backupBroken)
      ensures !r.Failed? ==> r == Lookup(View(), key, false)
    {
      r := primary.Get(key, primaryBroken);
      if r.Missing? {
        r := backup.Get(key, backupBroken);
      }
    }

    method Exists(key: Key, primaryBroken: bool, backupBroken: bool) returns (r: Asked)
      requires Valid()
      ensures r.AskFailed? <==> primaryBroken || (key !in primary.objects && backupBroken)
      ensures r.Answer? ==> (r.yes <==> key in View())
    {
      r := primary.Exists(key, primaryBroken);
      if r == Answer(false) {
        r := backup.Exists(key, backupBroken);
      }
    }

    /** Both sides are tried even if the first fails; only the primary's failure is reported. The one map
        loses the key exactly when no failing side held it. A backup that fails to delete what it holds makes
        its copy reappear, without an error. */
    method Delete(key: Key, primaryBroken: bool, backupBroken: bool) returns (raised: bool)
      requires Valid()
      modifies primary, backup
      ensures raised == primaryBroken
      ensures View() == old(View()) - {key}
        <==> !(primaryBroken && key in old(primary.objects)) && !(backupBroken && key in old(backup.objects))
      ensures !primaryBroken && backupBroken && key in old(backup.objects) ==>
        View() == old(View())[key := old(backup.objects)[key]]
      ensures primaryBroken && key in old(primary.objects) ==> View() == old(View())
      ensures !backupBroken ==> key !in backup.objects
    {
      raised := primary.Delete(key, primaryBroken);
      var _ := backup.Delete(key, backupBroken);
      assert key in View() <==> key in primary.objects || key in backup.objects;
    }

    /** The sorted keys of the one map; if the backup fails after `served` keys, the rest of its keys may be
        missing. `None` is a failure of the primary. */
    method List(prefix: string, primaryBroken: bool, served: int) returns (keys: seq<Key>, raised: bool)
      requires Valid()
      ensures raised == primaryBroken
      ensures !raised ==> Sorted(keys)
      ensures !raised ==> KeysUnder(primary.objects, prefix) <= Elements(keys) <= KeysUnder(View(), prefix)
      ensures !raised && served < 0 ==> Elements(keys) == KeysUnder(View(), prefix)
    {
      if primaryBroken {
        return [], true;
      }
      var seen: set<Key> := {};
      var ours := primary.List(prefix);
      for i := 0 to |ours|
        invariant seen == Elements(ours[..i])
      {
        assert ours[..i + 1] == ours[..i] + [ours[i]];
        seen := seen + {ours[i]};
      }
      assert ours[..|ours|] == ours;
      var theirs := backup.List(prefix);
      var stop := if 0 <= served < |theirs| then served else |theirs|;
      for i := 0 to stop
        invariant seen == Elements(ours) + Elements(theirs[..i])
      {
        assert theirs[..i + 1] == theirs[..i] + [theirs[i]];
        seen := seen + {theirs[i]};
      }
      assert theirs[..|theirs|] == theirs;
      assert Elements(theirs[..stop]) <= Elements(theirs);
      keys := SortKeys(seen);
      return keys, false;
    }
  }
}
