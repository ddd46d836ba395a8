/** The `.env` file as a whole: updating it in place, printing a dictionary over it, and what either does to
    the values that loading finds. */
module EnvStore {
  import opened Prelude
  import opened PyText
  import opened EnvFile

  // The dictionary `_write_env` builds: the last assignment of a key wins, the first fixes its place.

  function DictSet(d: seq<Pair>, k: string, v: string): seq<Pair> {
    if d == [] then [Pair(k, v)]
    else if d[0].key == k then [Pair(k, v)] + d[1..]
    else [d[0]] + DictSet(d[1..], k, v)
  }

  function ReadDict(lines: seq<string>): seq<Pair> {
    if lines == [] then []
    else
      var n := |lines| - 1;
      var p := ReadUnstripped(lines[n]);
      if p.Some? then DictSet(ReadDict(lines[..n]), p.value.key, p.value.value) else ReadDict(lines[..n])
  }

  function SetAll(d: seq<Pair>, updates: seq<Pair>): seq<Pair> {
    if updates == [] then d
    else
      var n := |updates| - 1;
      DictSet(SetAll(d, updates[..n]), updates[n].key, updates[n].value)
  }

  function Printed(d: seq<Pair>): seq<string> {
    seq(|d|, i requires 0 <= i < |d| => Assignment(d[i].key, d[i].value))
  }

  function LinesOf(text: Option<string>): seq<string> {
    if text.Some? then SplitLines(text.value) else []
  }

  /** What the file says about a key: what loading gives if it does not raise and the process has nothing. */
  function Loaded(text: Option<string>, k: string): string {
    FirstValue(LinesOf(text), k)
  }

  /** Every governed line is replaced; the keys that were seen are remembered. */
  method RewriteLines(lines: seq<string>, kv: seq<Pair>) returns (out: seq<string>, existing: set<string>)
    ensures out == UpdatedLines(lines, kv)
    ensures forall k :: Find(kv, k).Some? ==> (k in existing <==> k in KeysOf(lines))
  {
    hide KeyOfLine, Assignment, Find;
    existing, out := {}, [];
    for i := 0 to |lines|
      invariant out == UpdatedLines(lines[..i], kv)
      invariant forall k :: Find(kv, k).Some? ==> (k in existing <==> k in KeysOf(lines[..i]))
    {
      OneMoreLine(lines, i, kv);
      var k := KeyOfLine(lines[i]);
      if k.Some? && Find(kv, k.value).Some? {
        existing := existing + {k.value};
        out := out + [Assignment(k.value, Find(kv, k.value).value)];
      } else {
        out := out + [lines[i]];
      }
    }
    assert lines[..|lines|] == lines;
  }

  /** The pairs whose keys were not seen. */
  method MissingLines(lines: seq<string>, kv: seq<Pair>, existing: set<string>) returns (more: seq<string>)
    requires forall k :: Find(kv, k).Some? ==> (k in existing <==> k in KeysOf(lines))
    ensures more == Appended(kv, KeysOf(lines))
  {
    hide KeysOf, Assignment, Find;
    more := [];
    for i := 0 to |kv|
      invariant more == Appended(kv[..i], KeysOf(lines))
    {
      OneMorePair(kv, i, KeysOf(lines));
      FindHere(kv, i);
      if kv[i].key !in existing {
        more := more + [Assignment(kv[i].key, kv[i].value)];
      }
    }
    assert kv[..|kv|] == kv;
  }

  /** One `.env` file; `None` while it does not exist. */
  class DotEnv {
    var text: Option<string>

    constructor (text: Option<string>)
      ensures this.text == text
    {
      this.text := text;
    }

    /** `_update_env_file` */
    method Update(kv: seq<Pair>)
      requires IsDict(kv)
      modifies this
      ensures text == Some(Unlines(Updated(LinesOf(old(text)), kv)))
    {
      hide UpdatedLines, Appended, KeysOf, Unlines, LinesOf, Find, IsDict;
      var lines := LinesOf(text);
      var out, existing := RewriteLines(lines, kv);
      var more := MissingLines(lines, kv, existing);
      text := Some(Unlines(out + more));
    }

    /** `_write_env` with the secrets to persist. */
    method Write(updates: seq<Pair>)
      modifies this
      ensures text == Some(Unlines(Printed(SetAll(ReadDict(LinesOf(old(text))), updates))))
    {
      var lines := LinesOf(text);
      var existing: seq<Pair> := [];
      for i := 0 to |lines|
        modifies {}
        invariant existing == ReadDict(lines[..i])
      {
        assert lines[..i + 1][..i] == lines[..i];
        var p := ReadUnstripped(lines[i]);
        if p.Some? {
          existing := DictSet(existing, p.value.key, p.value.value);
        }
      }
      assert lines[..|lines|] == lines;
      ghost var read := existing;
      for i := 0 to |updates|
        modifies {}
        invariant existing == SetAll(read, updates[..i])
      {
        assert updates[..i + 1][..i] == updates[..i];
        existing := DictSet(existing, updates[i].key, updates[i].value);
      }
      assert updates[..|updates|] == updates;
      text := Some(Unlines(Printed(existing)));
    }

    /** `load_config`, as far as the environment goes: what the process has set wins over the file. */
    method Load(env0: map<string, string>) returns (env: map<string, string>, raised: bool)
      ensures Loading(env, raised) == LoadFrom(LinesOf(text), env0)
      ensures !raised ==>
        forall k :: ValueOf(env, k) == if ValueOf(env0, k) != "" then ValueOf(env0, k) else Loaded(text, k)
      ensures raised <==> exists k :: Blocked(LinesOf(text), env0, k)
    {
      env, raised := LoadLines(LinesOf(text), env0);
    }
  }

  lemma OneMoreLine(lines: seq<string>, i: nat, kv: seq<Pair>)
    requires i < |lines|
    ensures UpdatedLines(lines[..i + 1], kv) == UpdatedLines(lines[..i], kv) + [UpdatedLine(lines[i], kv)]
    ensures KeysOf(lines[..i + 1])
      == KeysOf(lines[..i]) + if KeyOfLine(lines[i]).Some? then {KeyOfLine(lines[i]).value} else {}
  {
    hide KeyOfLine;
    assert lines[..i + 1] == lines[..i] + [lines[i]];
    UpdatedLinesAppend(lines[..i], [lines[i]], kv);
    OneUpdatedLine(lines[i], kv);
    KeysOfAppend(lines[..i], [lines[i]]);
    KeysOfCons(lines[i], []);
    assert [lines[i]] + [] == [lines[i]];
  }

  lemma {:induction false} AppendedAppend(a: seq<Pair>, b: seq<Pair>, existing: set<string>)
    ensures Appended(a + b, existing) == Appended(a, existing) + Appended(b, existing)
  {
    if a == [] {
      assert a + b == b;
    } else {
      assert (a + b)[0] == a[0] && (a + b)[1..] == a[1..] + b;
      AppendedAppend(a[1..], b, existing);
    }
  }

  lemma OneMorePair(kv: seq<Pair>, i: nat, existing: set<string>)
    requires i < |kv|
    ensures Appended(kv[..i + 1], existing) == Appended(kv[..i], existing)
      + if kv[i].key in existing then [] else [Assignment(kv[i].key, kv[i].value)]
  {
    assert kv[..i + 1] == kv[..i] + [kv[i]];
    AppendedAppend(kv[..i], [kv[i]], existing);
    assert [kv[i]][1..] == [];
  }

  lemma FindHere(kv: seq<Pair>, i: nat)
    requires i < |kv|
    ensures Find(kv, kv[i].key).Some?
  {
    FindIsMember(kv, kv[i].key);
    assert kv[i] in kv;
  }

  // The update, from text to text.

  lemma LinesAreLines(text: Option<string>)
    ensures AllLines(LinesOf(text))
  {
    if text.Some? {
      SplitGivesLines(text.value);
    }
  }

  /** An empty line says nothing. */
  lemma EmptyLineSaysNothing(kv: seq<Pair>)
    ensures ReadLine("") == None && KeyOfLine("") == None && UpdatedLine("", kv) == ""
    ensures ReadUnstripped("") == None
  {
  }

  lemma RereadFirstValue(lines: seq<string>, k: string)
    requires AllLines(lines)
    ensures FirstValue(SplitLines(Unlines(lines)), k) == FirstValue(lines, k)
  {
    SplitUnlines(lines);
    EmptyLineSaysNothing([]);
    assert [""][1..] == [];
  }

  function UpdatedText(text: Option<string>, kv: seq<Pair>): Option<string> {
    Some(Unlines(Updated(LinesOf(text), kv)))
  }

  /** Loading the updated file gives the new pairs, and for every other key what it gave before. */
  lemma UpdatedTextLoads(text: Option<string>, kv: seq<Pair>, k: string)
    requires IsClean(kv)
    ensures Loaded(UpdatedText(text, kv), k) == if Find(kv, k).Some? then Find(kv, k).value else Loaded(text, k)
  {
    hide IsClean, Updated, FirstValue, Unlines;
    LinesAreLines(text);
    UpdateReads(LinesOf(text), kv, k);
    RereadFirstValue(Updated(LinesOf(text), kv), k);
  }

  lemma {:induction false} FirstValueIsClean(lines: seq<string>, k: string)
    requires AllLines(lines)
    ensures IsValue(FirstValue(lines, k))
  {
    if lines != [] {
      assert lines[0] in lines;
      if ReadLine(lines[0]).Some? {
        ReadIsClean(lines[0]);
      }
      FirstValueIsClean(lines[1..], k);
    }
  }

  /** The file says the new pairs exactly when their values are trimmed and free of line breaks. */
  lemma UpdateParses(text: Option<string>, kv: seq<Pair>)
    requires IsDict(kv) && forall p :: p in kv ==> IsKey(p.key)
    ensures (forall p :: p in kv ==> Loaded(UpdatedText(text, kv), p.key) == p.value)
      <==> (forall p :: p in kv ==> IsValue(p.value))
  {
    hide IsKey, IsValue, UpdatedText;
    if forall p :: p in kv ==> IsValue(p.value) {
      forall p | p in kv
        ensures Loaded(UpdatedText(text, kv), p.key) == p.value
      {
        UpdatedTextLoads(text, kv, p.key);
        MemberIsFound(kv, p);
      }
    }
    if forall p :: p in kv ==> Loaded(UpdatedText(text, kv), p.key) == p.value {
      forall p | p in kv
        ensures IsValue(p.value)
      {
        LinesAreLines(UpdatedText(text, kv));
        FirstValueIsClean(LinesOf(UpdatedText(text, kv)), p.key);
      }
    }
  }

  predicate HasNul(s: string) {
    '\0' in s
  }

  /** No key that is left alone keeps the file from loading. */
  ghost predicate OthersLoad(text: Option<string>, kv: seq<Pair>) {
    forall k :: Find(kv, k).None? ==> !Blocked(LinesOf(text), map[], k)
  }

  lemma BlockedAfterUpdate(text: Option<string>, kv: seq<Pair>, k: string)
    requires IsClean(kv)
    ensures Find(kv, k).None? ==>
      (Blocked(LinesOf(UpdatedText(text, kv)), map[], k) <==> Blocked(LinesOf(text), map[], k))
    ensures Find(kv, k).Some? ==>
      (Blocked(LinesOf(UpdatedText(text, kv)), map[], k)
       <==> Find(kv, k).value != "" && !Settable(Pair(k, Find(kv, k).value)))
  {
    hide IsClean, FirstValue, LinesOf, UpdatedText, Find, Settable;
    UpdatedTextLoads(text, kv, k);
  }

  lemma NewPairIsSettable(kv: seq<Pair>, k: string)
    requires forall p :: p in kv ==> Settable(p)
    ensures Find(kv, k).Some? ==> Settable(Pair(k, Find(kv, k).value))
  {
    FindIsMember(kv, k);
  }

  /** After the update the file loads with all the new values if and only if these are trimmed and hold no
      line break and no NUL, and no other key keeps the file from loading. */
  lemma UpdateRoundTrip(text: Option<string>, kv: seq<Pair>)
    requires IsDict(kv) && forall p :: p in kv ==> IsKey(p.key) && p.key != "" && !HasNul(p.key)
    ensures var l := LoadFrom(LinesOf(UpdatedText(text, kv)), map[]);
      (!l.raised && forall p :: p in kv ==> ValueOf(l.env, p.key) == p.value)
      <==> (forall p :: p in kv ==> IsValue(p.value) && !HasNul(p.value)) && OthersLoad(text, kv)
  {
    hide IsKey, IsValue, UpdatedText, LoadFrom, LinesOf, FirstValue, Blocked, Find;
    var lines := LinesOf(UpdatedText(text, kv));
    var l := LoadFrom(lines, map[]);
    UpdateParses(text, kv);
    RaisesWhen(lines, map[]);
    if (forall p :: p in kv ==> IsValue(p.value) && !HasNul(p.value)) && OthersLoad(text, kv) {
      forall k
        ensures !Blocked(lines, map[], k)
      {
        NewPairIsSettable(kv, k);
        BlockedAfterUpdate(text, kv, k);
      }
      forall p | p in kv
        ensures ValueOf(l.env, p.key) == p.value
      {
        LoadedValue(lines, map[], p.key);
      }
    }
    if !l.raised && forall p :: p in kv ==> ValueOf(l.env, p.key) == p.value {
      forall p | p in kv
        ensures Loaded(UpdatedText(text, kv), p.key) == p.value && !HasNul(p.value)
      {
        LoadedValue(lines, map[], p.key);
        NotBlocked(lines, p);
      }
      forall k
        ensures Find(kv, k).None? ==> !Blocked(LinesOf(text), map[], k)
      {
        BlockedAfterUpdate(text, kv, k);
      }
    }
  }

  lemma NotBlocked(lines: seq<string>, p: Pair)
    requires !Blocked(lines, map[], p.key) && FirstValue(lines, p.key) == p.value
    ensures !HasNul(p.value)
  {
  }

  /** A second update writes the same text. */
  lemma UpdatedTextTwice(text: Option<string>, kv: seq<Pair>)
    requires IsClean(kv)
    ensures UpdatedText(UpdatedText(text, kv), kv) == UpdatedText(text, kv)
  {
    hide IsClean, Unlines, IsLine;
    var out := Updated(LinesOf(text), kv);
    LinesAreLines(text);
    UpdateReads(LinesOf(text), kv, "");
    UpdateIsIdempotent(LinesOf(text), kv);
    SplitUnlines(out);
    if out == [] {
      NothingToUpdate(LinesOf(text), kv);
    }
  }

  lemma NothingToUpdate(lines: seq<string>, kv: seq<Pair>)
    requires Updated(lines, kv) == []
    ensures Updated([""], kv) == [""] && Unlines([""]) == Unlines([])
  {
    assert lines == [] && Appended(kv, {}) == [];
    assert KeysOf([]) == {};
    EmptyLineSaysNothing(kv);
    KeysOfCons("", []);
    OneUpdatedLine("", kv);
    assert [""] + [] == [""] && [""][1..] == [];
    assert Terminated([""]) == "" + "\n" + Terminated([""][1..]);
  }

  // Printing and reading a dictionary.

  lemma {:induction false} FindSet(d: seq<Pair>, k: string, v: string, asked: string)
    ensures Find(DictSet(d, k, v), asked) == if asked == k then Some(v) else Find(d, asked)
  {
    if d != [] && d[0].key != k {
      FindSet(d[1..], k, v, asked);
    }
  }

  lemma {:induction false} SetKeepsClean(d: seq<Pair>, k: string, v: string)
    requires IsClean(d) && IsKey(k) && IsValue(v)
    ensures IsClean(DictSet(d, k, v))
    ensures forall p :: p in DictSet(d, k, v) ==> p in d || p == Pair(k, v)
  {
    hide IsKey, IsValue;
    if d != [] {
      CleanRest(d);
      if d[0].key != k {
        SetKeepsClean(d[1..], k, v);
        var rest := DictSet(d[1..], k, v);
        forall p | p in rest
          ensures p.key != d[0].key
        {
          if p in d[1..] {
            FindIsMember(d[1..], d[0].key);
          }
        }
        CleanCons(d[0], rest);
      } else {
        FindIsMember(d[1..], k);
        CleanCons(Pair(k, v), d[1..]);
      }
      assert d == [d[0]] + d[1..];
    } else {
      CleanCons(Pair(k, v), []);
      assert [Pair(k, v)] + [] == [Pair(k, v)];
    }
  }

  lemma CleanCons(p: Pair, rest: seq<Pair>)
    requires IsClean(rest) && IsKey(p.key) && IsValue(p.value)
    requires forall q :: q in rest ==> q.key != p.key
    ensures IsClean([p] + rest)
  {
    hide IsKey, IsValue;
    var d := [p] + rest;
    forall i, j | 0 <= i < j < |d|
      ensures d[i].key != d[j].key
    {
      assert d[j] == rest[j - 1] && rest[j - 1] in rest;
    }
  }

  lemma {:induction false} ReadDictIsClean(lines: seq<string>)
    requires AllLines(lines)
    ensures IsClean(ReadDict(lines))
  {
    if lines != [] {
      hide IsClean, IsLine;
      var n := |lines| - 1;
      assert lines[n] in lines && forall l :: l in lines[..n] ==> l in lines;
      ReadDictIsClean(lines[..n]);
      UnstrippedAgrees(lines[n]);
      if ReadLine(lines[n]).Some? {
        var p := ReadLine(lines[n]).value;
        ReadIsClean(lines[n]);
        SetKeepsClean(ReadDict(lines[..n]), p.key, p.value);
      }
    } else {
      assert IsClean([]);
    }
  }

  lemma {:induction false} SetAllIsClean(d: seq<Pair>, updates: seq<Pair>)
    requires IsClean(d) && forall p :: p in updates ==> IsKey(p.key) && IsValue(p.value)
    ensures IsClean(SetAll(d, updates))
    decreases |updates|
  {
    hide IsKey, IsValue, IsClean;
    if updates != [] {
      var n := |updates| - 1;
      SetAllIsClean(d, updates[..n]);
      SetKeepsClean(SetAll(d, updates[..n]), updates[n].key, updates[n].value);
    }
  }

  lemma {:induction false} SetNew(d: seq<Pair>, k: string, v: string)
    requires Find(d, k).None?
    ensures DictSet(d, k, v) == d + [Pair(k, v)]
  {
    if d != [] {
      SetNew(d[1..], k, v);
      assert d == [d[0]] + d[1..];
    }
  }

  lemma PrintedFront(d: seq<Pair>)
    requires d != []
    ensures var n := |d| - 1; Printed(d) == Printed(d[..n]) + [Assignment(d[n].key, d[n].value)]
  {
    hide Assignment;
  }

  lemma FindOne(p: Pair, k: string)
    ensures Find([p], k) == if p.key == k then Some(p.value) else None
  {
    assert [p][1..] == [];
  }

  lemma ReadDictSnoc(lines: seq<string>, k: string, v: string)
    requires IsKey(k) && IsValue(v)
    ensures ReadDict(lines + [Assignment(k, v)]) == DictSet(ReadDict(lines), k, v)
  {
    hide ReadUnstripped, ReadLine, Assignment, IsKey, IsValue;
    AssignmentReadsBack(k, v);
    UnstrippedAgrees(Assignment(k, v));
    assert (lines + [Assignment(k, v)])[..|lines|] == lines;
  }

  lemma PrintedAreLines(d: seq<Pair>)
    requires IsClean(d)
    ensures AllLines(Printed(d))
  {
    hide Assignment, IsLine, IsKey, IsValue, IsDict;
    forall i | 0 <= i < |d|
      ensures IsLine(Printed(d)[i])
    {
      assert d[i] in d;
      AssignmentReadsBack(d[i].key, d[i].value);
    }
  }

  lemma NothingPrinted(k: string)
    ensures Printed([]) == [] && ReadDict([]) == [] && FirstValue([], k) == "" && OrEmpty(Find([], k)) == ""
  {
  }

  lemma {:induction false} PrintedReadsBack(d: seq<Pair>)
    requires IsClean(d)
    ensures ReadDict(Printed(d)) == d
  {
    hide *;
    if d == [] {
      NothingPrinted("");
    } else {
      var n := |d| - 1;
      CleanFront(d);
      PrintedReadsBack(d[..n]);
      PrintedFront(d);
      ReadDictSnoc(Printed(d[..n]), d[n].key, d[n].value);
      SetNew(d[..n], d[n].key, d[n].value);
      assert d == d[..n] + [d[n]];
    }
  }

  lemma CleanFront(d: seq<Pair>)
    requires IsClean(d) && d != []
    ensures var n := |d| - 1; IsClean(d[..n]) && IsKey(d[n].key) && IsValue(d[n].value) && Find(d[..n], d[n].key).None?
  {
    hide IsKey, IsValue;
    var n := |d| - 1;
    assert d[n] in d && forall p :: p in d[..n] ==> p in d;
    FindIsMember(d[..n], d[n].key);
    forall p | p in d[..n]
      ensures p.key != d[n].key
    {
      var i :| 0 <= i < n && d[..n][i] == p;
      assert d[i] == p;
    }
  }

  /** What is printed is read back: the same dictionary, in the same order. */
  lemma PrintParse(d: seq<Pair>)
    requires IsClean(d)
    ensures ReadDict(SplitLines(Unlines(Printed(d)))) == d
  {
    PrintedReadsBack(d);
    PrintedAreLines(d);
    SplitUnlines(Printed(d));
    EmptyLineSaysNothing([]);
    assert [""][..0] == [];
  }

  function WrittenText(text: Option<string>, updates: seq<Pair>): Option<string> {
    Some(Unlines(Printed(SetAll(ReadDict(LinesOf(text)), updates))))
  }

  /** Reading back a written file gives exactly the dictionary that was written: the old one with the
      updates applied. */
  lemma WriteRoundTrip(text: Option<string>, updates: seq<Pair>)
    requires forall p :: p in updates ==> IsKey(p.key) && IsValue(p.value)
    ensures ReadDict(LinesOf(WrittenText(text, updates))) == SetAll(ReadDict(LinesOf(text)), updates)
  {
    LinesAreLines(text);
    ReadDictIsClean(LinesOf(text));
    SetAllIsClean(ReadDict(LinesOf(text)), updates);
    PrintParse(SetAll(ReadDict(LinesOf(text)), updates));
  }

  // What writing does to loading: the writer keeps the last value of a key, loading takes the first non-empty one.

  /** The value the last assignment of a key gives it. */
  function LastValue(lines: seq<string>, k: string): string {
    if lines == [] then ""
    else
      var n := |lines| - 1;
      var p := ReadLine(lines[n]);
      if p.Some? && p.value.key == k then p.value.value else LastValue(lines[..n], k)
  }

  function OrEmpty(v: Option<string>): string {
    if v.Some? then v.value else ""
  }

  lemma {:induction false} ReadDictIsLast(lines: seq<string>, k: string)
    ensures OrEmpty(Find(ReadDict(lines), k)) == LastValue(lines, k)
  {
    if lines != [] {
      hide ReadLine, ReadUnstripped;
      var n := |lines| - 1;
      ReadDictIsLast(lines[..n], k);
      UnstrippedAgrees(lines[n]);
      var p := ReadLine(lines[n]);
      if p.Some? {
        FindSet(ReadDict(lines[..n]), p.value.key, p.value.value, k);
      }
    }
  }

  lemma {:induction false} FindAppend(a: seq<Pair>, b: seq<Pair>, k: string)
    ensures Find(a + b, k) == if Find(a, k).Some? then Find(a, k) else Find(b, k)
  {
    if a == [] {
      assert a + b == b;
    } else {
      assert (a + b)[0] == a[0] && (a + b)[1..] == a[1..] + b;
      FindAppend(a[1..], b, k);
    }
  }

  lemma {:induction false} FindSetAll(d: seq<Pair>, updates: seq<Pair>, k: string)
    requires IsDict(updates)
    ensures Find(SetAll(d, updates), k) == if Find(updates, k).Some? then Find(updates, k) else Find(d, k)
    decreases |updates|
  {
    if updates != [] {
      var n := |updates| - 1;
      var front, last := updates[..n], updates[n];
      FindSetAll(d, front, k);
      FindSet(SetAll(d, front), last.key, last.value, k);
      assert updates == front + [last];
      FindAppend(front, [last], k);
      assert last in updates;
      MemberIsFound(updates, last);
    }
  }

  lemma LastIsNew(found: Option<string>, last: Pair, k: string)
    requires found.Some? ==> last.key != k
    ensures OrEmpty(if found.Some? then found else if last.key == k then Some(last.value) else None)
      == if OrEmpty(found) != "" then OrEmpty(found) else if last.key == k then last.value else ""
  {
  }

  lemma {:induction false} PrintedLoads(d: seq<Pair>, k: string)
    requires IsClean(d)
    ensures FirstValue(Printed(d), k) == OrEmpty(Find(d, k))
  {
    hide *;
    if d == [] {
      NothingPrinted(k);
    } else {
      var n := |d| - 1;
      CleanFront(d);
      PrintedLoads(d[..n], k);
      PrintedFront(d);
      FirstValueAppend(Printed(d[..n]), [Assignment(d[n].key, d[n].value)], k);
      AssignmentSays(d[n].key, d[n].value, k);
      assert d == d[..n] + [d[n]];
      FindAppend(d[..n], [d[n]], k);
      FindOne(d[n], k);
      LastIsNew(Find(d[..n], k), d[n], k);
    }
  }

  /** Loading a written file: the update if there is one, and otherwise the last value the file had. */
  lemma WrittenTextLoads(text: Option<string>, updates: seq<Pair>, k: string)
    requires IsClean(updates)
    ensures Loaded(WrittenText(text, updates), k)
      == if Find(updates, k).Some? then Find(updates, k).value else LastValue(LinesOf(text), k)
  {
    var d := SetAll(ReadDict(LinesOf(text)), updates);
    LinesAreLines(text);
    ReadDictIsClean(LinesOf(text));
    SetAllIsClean(ReadDict(LinesOf(text)), updates);
    PrintedReadsBack(d);
    PrintedAreLines(d);
    RereadFirstValue(Printed(d), k);
    PrintedLoads(d, k);
    FindSetAll(ReadDict(LinesOf(text)), updates, k);
    ReadDictIsLast(LinesOf(text), k);
  }

  /** Keys that are not written are undisturbed exactly when their last value is their first non-empty one. */
  lemma OtherKeysUndisturbed(text: Option<string>, updates: seq<Pair>, k: string)
    requires IsClean(updates) && Find(updates, k).None?
    ensures Loaded(WrittenText(text, updates), k) == Loaded(text, k)
      <==> LastValue(LinesOf(text), k) == FirstValue(LinesOf(text), k)
  {
    WrittenTextLoads(text, updates, k);
  }

  /** A file that assigns a key twice loads differently after a write that has nothing to do with it. */
  lemma DuplicatesAreDisturbed(k: string, first: string, last: string, updates: seq<Pair>)
    requires IsKey(k) && IsValue(first) && IsValue(last) && first != "" && first != last
    requires IsClean(updates) && Find(updates, k).None?
    ensures var text := Some(Unlines([Assignment(k, first), Assignment(k, last)]));
      Loaded(text, k) == first && Loaded(WrittenText(text, updates), k) == last
  {
    hide Assignment, IsClean, IsKey, IsValue, Unlines, ReadLine;
    var one, two := Assignment(k, first), Assignment(k, last);
    AssignmentReadsBack(k, first);
    AssignmentReadsBack(k, last);
    SplitUnlines([one, two]);
    assert LastValue([one, two], k) == last;
    WrittenTextLoads(Some(Unlines([one, two])), updates, k);
  }
}
