/** The `.env` file: the reader of `load_config`, the in-place update of `_update_env_file`, and the
    dictionary that `_write_env` reads and prints. Texts are what `read_text` returns. */
module EnvFile {
  import opened Prelude
  import opened PyText

  datatype Pair = Pair(key: string, value: string)

  /** Position of the first `=`. */
  function FirstEq(s: string): (i: nat)
    ensures i <= |s| && (i < |s| ==> s[i] == '=') && forall j :: 0 <= j < i ==> s[j] != '='
  {
    if s == [] || s[0] == '=' then 0 else 1 + FirstEq(s[1..])
  }

  predicate IsComment(stripped: string) {
    stripped != [] && stripped[0] == '#'
  }

  function PairIn(s: string): Pair
    requires '=' in s
  {
    var i := FirstEq(s);
    Pair(Trim(s[..i]), Trim(s[i + 1..]))
  }

  /** How `load_config` reads a line. */
  function ReadLine(line: string): Option<Pair> {
    var s := Trim(line);
    if s == [] || IsComment(s) || '=' !in s then None else Some(PairIn(s))
  }

  /** The key `_update_env_file` sees in a line: it strips on the left only. */
  function KeyOfLine(line: string): Option<string> {
    var s := TrimLeft(line);
    if s == [] || IsComment(s) || '=' !in s then None else Some(PairIn(s).key)
  }

  /** How `_write_env` reads a line: it splits before it strips. */
  function ReadUnstripped(line: string): Option<Pair> {
    if '=' in line && !IsComment(Trim(line)) then Some(PairIn(line)) else None
  }

  // The three readers agree.

  lemma FirstEqAt(s: string, i: nat)
    requires i < |s| && s[i] == '=' && forall j :: 0 <= j < i ==> s[j] != '='
    ensures FirstEq(s) == i && '=' in s
  {
    var k := FirstEq(s);
    assert k < |s| ==> s[k] == '=';
  }

  lemma FirstEqPadded(left: string, s: string, right: string)
    requires AllSpace(left) && AllSpace(right)
    ensures '=' in left + s + right <==> '=' in s
    ensures '=' in s ==> FirstEq(left + s + right) == |left| + FirstEq(s)
  {
    var t := left + s + right;
    assert !IsSpace('=');
    if '=' in s {
      var i := FirstEq(s);
      assert t[|left| + i] == '=';
      FirstEqAt(t, |left| + i);
    }
  }

  lemma PairInPadded(left: string, s: string, right: string)
    requires AllSpace(left) && AllSpace(right) && '=' in s
    ensures '=' in left + s + right && PairIn(left + s + right) == PairIn(s)
  {
    hide Trim, IsSpace;
    FirstEqPadded(left, s, right);
    var t, i := left + s + right, FirstEq(s);
    assert t[..|left| + i] == left + s[..i] + [] && t[|left| + i + 1..] == [] + s[i + 1..] + right;
    TrimPad(left, s[..i], []);
    TrimPad([], s[i + 1..], right);
  }

  lemma LeftOnly(left: string, core: string, right: string)
    requires AllSpace(left) && AllSpace(right) && IsTrimmed(core)
    ensures TrimLeft(left + core + right) == if core == [] then [] else core + right
  {
    var s := left + core + right;
    if core == [] {
      TrimLeftStart(s, |s|);
    } else {
      assert s[|left|] == core[0];
      TrimLeftStart(s, |left|);
    }
  }

  lemma UnstrippedAgrees(line: string)
    ensures ReadUnstripped(line) == ReadLine(line)
  {
    hide Trim, PairIn, FirstEq;
    var left, right := Padding(line);
    FirstEqPadded(left, Trim(line), right);
    if '=' in Trim(line) {
      PairInPadded(left, Trim(line), right);
    }
  }

  lemma RightPadded(core: string, right: string)
    requires AllSpace(right)
    ensures '=' in core + right <==> '=' in core
    ensures '=' in core ==> PairIn(core + right) == PairIn(core)
  {
    hide PairIn, FirstEq;
    FirstEqPadded([], core, right);
    assert [] + core + right == core + right;
    if '=' in core {
      PairInPadded([], core, right);
    }
  }

  lemma KeyAgrees(line: string)
    ensures KeyOfLine(line) == if ReadLine(line).Some? then Some(ReadLine(line).value.key) else None
  {
    hide Trim, FirstEq, PairIn, TrimLeft, IsTrimmed, AllSpace;
    var left, right := Padding(line);
    var core := Trim(line);
    LeftOnly(left, core, right);
    RightPadded(core, right);
    assert core != [] ==> (core + right)[0] == core[0];
  }

  /** Stripping both ends, one end or neither makes no difference to what a line assigns. */
  lemma ReadersAgree(line: string)
    ensures ReadUnstripped(line) == ReadLine(line)
    ensures KeyOfLine(line) == if ReadLine(line).Some? then Some(ReadLine(line).value.key) else None
  {
    UnstrippedAgrees(line);
    KeyAgrees(line);
  }

  // What can be written and read back.

  /** A value as the readers return it. */
  predicate IsValue(v: string) {
    IsTrimmed(v) && IsLine(v)
  }

  /** A key as the readers return it. */
  predicate IsKey(k: string) {
    IsTrimmed(k) && IsLine(k) && '=' !in k && !IsComment(k)
  }

  lemma TrimIsSlice(s: string)
    ensures IsTrimmed(Trim(s)) && forall c :: c in Trim(s) ==> c in s
  {
    var left, right := Padding(s);
    assert forall c :: c in Trim(s) ==> c in left + Trim(s) + right;
  }

  /** Whatever is read from a line is a key and a value in this sense. */
  lemma ReadIsClean(line: string)
    requires IsLine(line) && ReadLine(line).Some?
    ensures IsKey(ReadLine(line).value.key) && IsValue(ReadLine(line).value.value)
  {
    hide Trim, IsTrimmed;
    var core := Trim(line);
    var i := FirstEq(core);
    TrimIsSlice(line);
    LineWithin(line, core);
    LineWithin(core, core[..i]);
    LineWithin(core, core[i + 1..]);
    TrimIsLine(core[..i]);
    TrimIsLine(core[i + 1..]);
    TrimIsSlice(core[..i]);
    CoreKeepsFirst(line, i);
  }

  lemma LineWithin(s: string, part: string)
    requires IsLine(s) && forall c :: c in part ==> c in s
    ensures IsLine(part)
  {
    hide IsBreak;
    forall i | 0 <= i < |part|
      ensures !IsBreak(part[i])
    {
      assert part[i] in s;
    }
  }

  lemma TrimIsLine(s: string)
    requires IsLine(s)
    ensures IsLine(Trim(s)) && IsTrimmed(Trim(s))
  {
    hide Trim;
    TrimIsSlice(s);
    LineWithin(s, Trim(s));
  }

  /** Stripping what stands before the first `=` keeps its first character. */
  lemma CoreKeepsFirst(line: string, i: nat)
    requires i <= |Trim(line)| && !IsComment(Trim(line))
    ensures !IsComment(Trim(Trim(line)[..i]))
  {
    var core := Trim(line);
    TrimIsSlice(line);
    TrimKeepsFirst(core[..i]);
  }

  lemma TrimKeepsFirst(s: string)
    requires s != [] ==> !IsSpace(s[0])
    ensures s != [] ==> Trim(s) != [] && Trim(s)[0] == s[0]
  {
    TrimLeftStart(s, 0);
    assert s[0..] == s;
  }

  function Assignment(k: string, v: string): string {
    k + "=" + v
  }

  lemma AssignmentIsTrimmed(k: string, v: string)
    requires IsKey(k) && IsValue(v)
    ensures var line := Assignment(k, v); line != [] && IsTrimmed(line) && IsLine(line) && !IsComment(line)
  {
    var line := Assignment(k, v);
    assert line[0] == if k == [] then '=' else k[0];
    assert line[|line| - 1] == if v == [] then '=' else v[|v| - 1];
    forall i | 0 <= i < |line|
      ensures !IsBreak(line[i])
    {
      assert line[i] == if i < |k| then k[i] else if i == |k| then '=' else v[i - |k| - 1];
    }
  }

  lemma AssignmentSplits(k: string, v: string)
    requires '=' !in k
    ensures var line := Assignment(k, v); '=' in line && PairIn(line) == Pair(Trim(k), Trim(v))
  {
    hide Trim;
    var line := Assignment(k, v);
    assert line[|k|] == '=' && line[..|k|] == k && line[|k| + 1..] == v;
    FirstEqAt(line, |k|);
  }

  /** A written assignment is read back exactly. */
  lemma AssignmentReadsBack(k: string, v: string)
    requires IsKey(k) && IsValue(v)
    ensures ReadLine(Assignment(k, v)) == Some(Pair(k, v)) && IsLine(Assignment(k, v))
  {
    hide Trim, IsTrimmed, PairIn, Assignment, IsLine;
    AssignmentIsTrimmed(k, v);
    AssignmentSplits(k, v);
    TrimTrimmed(Assignment(k, v));
    TrimTrimmed(k);
    TrimTrimmed(v);
  }

  // Loading: the first non-empty value wins.

  /** What a file says about a key; the empty string says nothing. */
  function FirstValue(lines: seq<string>, k: string): string {
    if lines == [] then ""
    else
      var p := ReadLine(lines[0]);
      if p.Some? && p.value.key == k && p.value.value != "" then p.value.value else FirstValue(lines[1..], k)
  }

  function ValueOf(env: map<string, string>, k: string): string {
    if k in env then env[k] else ""
  }

  lemma {:induction false} FirstValueAppend(a: seq<string>, b: seq<string>, k: string)
    ensures FirstValue(a + b, k) == if FirstValue(a, k) != "" then FirstValue(a, k) else FirstValue(b, k)
  {
    if a == [] {
      assert a + b == b;
    } else {
      assert (a + b)[0] == a[0] && (a + b)[1..] == a[1..] + b;
      FirstValueAppend(a[1..], b, k);
    }
  }

  /** What `os.environ` accepts; an empty key or a NUL raises. */
  predicate Settable(p: Pair) {
    p.key != "" && '\0' !in p.key && '\0' !in p.value
  }

  /** The process environment, and whether loading has raised. */
  datatype Loading = Loading(env: map<string, string>, raised: bool)

  function LoadLine(l: Loading, line: string): Loading {
    var p := ReadLine(line);
    if l.raised || p.None? || ValueOf(l.env, p.value.key) != "" || p.value.value == "" then l
    else if !Settable(p.value) then l.(raised := true)
    else l.(env := l.env[p.value.key := p.value.value])
  }

  function LoadFrom(lines: seq<string>, env0: map<string, string>): Loading {
    if lines == [] then Loading(env0, false)
    else LoadLine(LoadFrom(lines[..|lines| - 1], env0), lines[|lines| - 1])
  }

  /** The loop of `load_config`: up to the exception, if there is one. */
  method LoadLines(lines: seq<string>, env0: map<string, string>) returns (env: map<string, string>, raised: bool)
    ensures Loading(env, raised) == LoadFrom(lines, env0)
    ensures !raised ==>
      forall k :: ValueOf(env, k) == if ValueOf(env0, k) != "" then ValueOf(env0, k) else FirstValue(lines, k)
    ensures raised <==> exists k :: Blocked(lines, env0, k)
  {
    hide ReadLine, FirstValue, Blocked;
    env, raised := env0, false;
    for i := 0 to |lines|
      invariant Loading(env, raised) == LoadFrom(lines[..i], env0)
    {
      assert lines[..i + 1][..i] == lines[..i];
      var p := ReadLine(lines[i]);
      if !raised && p.Some? && ValueOf(env, p.value.key) == "" && p.value.value != "" {
        if Settable(p.value) {
          env := env[p.value.key := p.value.value];
        } else {
          raised := true;
        }
      }
    }
    assert lines[..|lines|] == lines;
    forall k
      ensures !raised ==> ValueOf(env, k) == if ValueOf(env0, k) != "" then ValueOf(env0, k) else FirstValue(lines, k)
    {
      LoadedValue(lines, env0, k);
    }
    RaisesWhen(lines, env0);
  }

  lemma FirstValueSnoc(lines: seq<string>, k: string)
    requires lines != []
    ensures var front, p := lines[..|lines| - 1], ReadLine(lines[|lines| - 1]);
      FirstValue(lines, k) == if FirstValue(front, k) != "" then FirstValue(front, k)
                              else if p.Some? && p.value.key == k then p.value.value else ""
  {
    hide ReadLine;
    var n := |lines| - 1;
    assert lines == lines[..n] + [lines[n]] && [lines[n]][1..] == [];
    FirstValueAppend(lines[..n], [lines[n]], k);
  }

  lemma NoLines(kv: seq<Pair>, env0: map<string, string>, k: string)
    ensures FirstValue([], k) == "" && KeysOf([]) == {} && UpdatedLines([], kv) == []
    ensures LoadFrom([], env0) == Loading(env0, false)
  {
  }

  lemma LoadSnoc(lines: seq<string>, env0: map<string, string>)
    requires lines != []
    ensures LoadFrom(lines, env0) == LoadLine(LoadFrom(lines[..|lines| - 1], env0), lines[|lines| - 1])
  {
  }

  lemma LoadStep(l: Loading, line: string, given: string, first: string, k: string)
    requires !l.raised ==> ValueOf(l.env, k) == if given != "" then given else first
    ensures var next, p := LoadLine(l, line), ReadLine(line);
      !next.raised ==>
        ValueOf(next.env, k) == if given != "" then given else if first != "" then first
                                else if p.Some? && p.value.key == k then p.value.value else ""
  {
    hide ReadLine, Settable;
  }

  /** Process values win; otherwise the first non-empty value in the file does. */
  lemma {:induction false} LoadedValue(lines: seq<string>, env0: map<string, string>, k: string)
    ensures var l := LoadFrom(lines, env0);
      !l.raised ==> ValueOf(l.env, k) == if ValueOf(env0, k) != "" then ValueOf(env0, k) else FirstValue(lines, k)
  {
    hide *;
    if lines == [] {
      NoLines([], env0, k);
    } else {
      var n := |lines| - 1;
      LoadedValue(lines[..n], env0, k);
      FirstValueSnoc(lines, k);
      LoadSnoc(lines, env0);
      LoadStep(LoadFrom(lines[..n], env0), lines[n], ValueOf(env0, k), FirstValue(lines[..n], k), k);
    }
  }

  /** The first non-empty value of this key is one the process environment refuses. */
  predicate Blocked(lines: seq<string>, env0: map<string, string>, k: string) {
    && ValueOf(env0, k) == "" && FirstValue(lines, k) != ""
    && !Settable(Pair(k, FirstValue(lines, k)))
  }

  /** Loading raises exactly when some key is blocked. */
  lemma {:induction false} RaisesWhen(lines: seq<string>, env0: map<string, string>)
    ensures LoadFrom(lines, env0).raised <==> exists k :: Blocked(lines, env0, k)
  {
    if lines == [] {
      assert forall k :: FirstValue([], k) == "";
    } else {
      var n := |lines| - 1;
      RaisesWhen(lines[..n], env0);
      forall k
        ensures Blocked(lines[..n], env0, k) ==> Blocked(lines, env0, k)
        ensures Blocked(lines, env0, k) ==> LoadFrom(lines, env0).raised
      {
        BlockedNext(lines, env0, k);
      }
      if LoadFrom(lines, env0).raised && !LoadFrom(lines[..n], env0).raised {
        var k := ReadLine(lines[n]).value.key;
        LoadedValue(lines[..n], env0, k);
        FirstValueSnoc(lines, k);
        assert Blocked(lines, env0, k);
      }
    }
  }

  lemma BlockedNext(lines: seq<string>, env0: map<string, string>, k: string)
    requires lines != []
    requires LoadFrom(lines[..|lines| - 1], env0).raised <== Blocked(lines[..|lines| - 1], env0, k)
    ensures Blocked(lines[..|lines| - 1], env0, k) ==> Blocked(lines, env0, k)
    ensures Blocked(lines, env0, k) ==> LoadFrom(lines, env0).raised
  {
    hide ReadLine;
    var n := |lines| - 1;
    FirstValueSnoc(lines, k);
    LoadedValue(lines[..n], env0, k);
  }

  // Updating in place.

  /** A dictionary: pairs in insertion order, every key once. */
  ghost predicate IsDict(d: seq<Pair>) {
    forall i, j :: 0 <= i < j < |d| ==> d[i].key != d[j].key
  }

  function Find(d: seq<Pair>, k: string): Option<string> {
    if d == [] then None else if d[0].key == k then Some(d[0].value) else Find(d[1..], k)
  }

  function UpdatedLine(line: string, kv: seq<Pair>): string {
    var k := KeyOfLine(line);
    if k.Some? && Find(kv, k.value).Some? then Assignment(k.value, Find(kv, k.value).value) else line
  }

  function UpdatedLines(lines: seq<string>, kv: seq<Pair>): seq<string> {
    if lines == [] then [] else [UpdatedLine(lines[0], kv)] + UpdatedLines(lines[1..], kv)
  }

  function KeysOf(lines: seq<string>): set<string> {
    set l | l in lines && KeyOfLine(l).Some? :: KeyOfLine(l).value
  }

  /** The assignments for the keys the file does not mention. */
  function Appended(kv: seq<Pair>, existing: set<string>): seq<string> {
    if kv == [] then []
    else (if kv[0].key in existing then [] else [Assignment(kv[0].key, kv[0].value)]) + Appended(kv[1..], existing)
  }

  function Updated(lines: seq<string>, kv: seq<Pair>): seq<string> {
    UpdatedLines(lines, kv) + Appended(kv, KeysOf(lines))
  }

  ghost predicate IsClean(d: seq<Pair>) {
    IsDict(d) && forall p :: p in d ==> IsKey(p.key) && IsValue(p.value)
  }

  lemma {:induction false} FindIsMember(d: seq<Pair>, k: string)
    ensures Find(d, k).Some? ==> Pair(k, Find(d, k).value) in d
    ensures Find(d, k).None? ==> forall p :: p in d ==> p.key != k
  {
    if d != [] {
      FindIsMember(d[1..], k);
    }
  }

  lemma UpdatedLineReads(line: string, kv: seq<Pair>)
    requires IsClean(kv)
    ensures ReadLine(UpdatedLine(line, kv)) ==
      match ReadLine(line)
      case None => None
      case Some(p) => if Find(kv, p.key).Some? then Some(Pair(p.key, Find(kv, p.key).value)) else Some(p)
    ensures KeyOfLine(UpdatedLine(line, kv)) == KeyOfLine(line)
    ensures IsLine(line) ==> IsLine(UpdatedLine(line, kv))
  {
    hide ReadLine, KeyOfLine, Assignment, IsKey, IsValue;
    KeyAgrees(line);
    KeyAgrees(UpdatedLine(line, kv));
    var k := KeyOfLine(line);
    if k.Some? && Find(kv, k.value).Some? {
      FindIsMember(kv, k.value);
      AssignmentReadsBack(k.value, Find(kv, k.value).value);
    }
  }

  lemma KeysOfCons(line: string, rest: seq<string>)
    ensures KeysOf([line] + rest) == (if KeyOfLine(line).Some? then {KeyOfLine(line).value} else {}) + KeysOf(rest)
  {
    hide KeyOfLine;
    var all := [line] + rest;
    assert forall l :: l in all <==> l == line || l in rest;
  }

  lemma {:induction false} UpdatedLinesKeepKeys(lines: seq<string>, kv: seq<Pair>)
    requires IsClean(kv)
    ensures KeysOf(UpdatedLines(lines, kv)) == KeysOf(lines)
  {
    hide *;
    if lines == [] {
      NoLines(kv, map[], "");
    } else {
      UpdatedLineReads(lines[0], kv);
      UpdatedLinesKeepKeys(lines[1..], kv);
      UpdatedLinesCons(lines, kv);
      assert lines == [lines[0]] + lines[1..];
      KeysOfCons(lines[0], lines[1..]);
      KeysOfCons(UpdatedLine(lines[0], kv), UpdatedLines(lines[1..], kv));
    }
  }

  lemma {:induction false} UpdatedLinesAreLines(lines: seq<string>, kv: seq<Pair>)
    requires IsClean(kv) && AllLines(lines)
    ensures AllLines(UpdatedLines(lines, kv))
  {
    if lines != [] {
      hide ReadLine, KeyOfLine, UpdatedLine, IsClean, IsLine;
      assert lines[0] in lines && forall l :: l in lines[1..] ==> l in lines;
      UpdatedLineReads(lines[0], kv);
      UpdatedLinesAreLines(lines[1..], kv);
    }
  }

  lemma UpdatedLinesCons(lines: seq<string>, kv: seq<Pair>)
    requires lines != []
    ensures UpdatedLines(lines, kv) == [UpdatedLine(lines[0], kv)] + UpdatedLines(lines[1..], kv)
  {
  }

  lemma UpdatedLineSays(line: string, kv: seq<Pair>, k: string)
    requires IsClean(kv)
    ensures FirstValue([UpdatedLine(line, kv)], k)
      == if Find(kv, k).None? then FirstValue([line], k)
         else if KeyOfLine(line) == Some(k) then Find(kv, k).value else ""
  {
    hide ReadLine, KeyOfLine, UpdatedLine, IsClean, Find;
    UpdatedLineReads(line, kv);
    KeyAgrees(line);
    assert [line][1..] == [] && [UpdatedLine(line, kv)][1..] == [];
    assert FirstValue([], k) == "";
  }

  /** A governed key reads as its new value from the lines that mention it, any other key as before. */
  lemma {:induction false} UpdatedLinesRead(lines: seq<string>, kv: seq<Pair>, k: string)
    requires IsClean(kv)
    ensures FirstValue(UpdatedLines(lines, kv), k)
      == if Find(kv, k).None? then FirstValue(lines, k)
         else if k in KeysOf(lines) then Find(kv, k).value else ""
  {
    hide *;
    if lines == [] {
      NoLines(kv, map[], k);
    } else {
      var line, rest := lines[0], lines[1..];
      UpdatedLinesRead(rest, kv, k);
      UpdatedLineSays(line, kv, k);
      FirstValueAppend([line], rest, k);
      FirstValueAppend([UpdatedLine(line, kv)], UpdatedLines(rest, kv), k);
      KeysOfCons(line, rest);
      UpdatedLinesCons(lines, kv);
      assert lines == [line] + rest;
    }
  }

  lemma CleanRest(d: seq<Pair>)
    requires IsClean(d) && d != []
    ensures IsClean(d[1..]) && IsKey(d[0].key) && IsValue(d[0].value)
    ensures Find(d[1..], d[0].key).None?
  {
    hide IsKey, IsValue;
    assert d[0] in d && forall p :: p in d[1..] ==> p in d;
    FindIsMember(d[1..], d[0].key);
    assert forall p :: p in d[1..] ==> p.key != d[0].key;
  }

  lemma AssignmentSays(k: string, v: string, asked: string)
    requires IsKey(k) && IsValue(v)
    ensures FirstValue([Assignment(k, v)], asked) == if k == asked then v else ""
  {
    hide ReadLine, Assignment, IsKey, IsValue;
    AssignmentReadsBack(k, v);
    assert [Assignment(k, v)][1..] == [];
  }

  lemma {:induction false} AppendedReads(kv: seq<Pair>, existing: set<string>, k: string)
    requires IsClean(kv)
    ensures FirstValue(Appended(kv, existing), k)
      == if Find(kv, k).None? || k in existing then "" else Find(kv, k).value
  {
    if kv != [] {
      hide FirstValue, Assignment, IsKey, IsValue, IsClean;
      var line, rest := Assignment(kv[0].key, kv[0].value), Appended(kv[1..], existing);
      CleanRest(kv);
      AppendedReads(kv[1..], existing, k);
      AssignmentSays(kv[0].key, kv[0].value, k);
      FirstValueAppend([line], rest, k);
      assert kv[0].key in existing ==> Appended(kv, existing) == rest;
    } else {
      assert FirstValue([], k) == "";
    }
  }

  lemma {:induction false} AppendedAreLines(kv: seq<Pair>, existing: set<string>)
    requires IsClean(kv)
    ensures AllLines(Appended(kv, existing))
  {
    if kv != [] {
      hide ReadLine, Assignment, IsKey, IsValue, IsClean, IsLine;
      CleanRest(kv);
      AppendedAreLines(kv[1..], existing);
      AssignmentReadsBack(kv[0].key, kv[0].value);
    }
  }

  /** Reading the updated file gives the old map overridden by the new pairs, whatever duplicates it held. */
  lemma UpdateReads(lines: seq<string>, kv: seq<Pair>, k: string)
    requires IsClean(kv)
    ensures FirstValue(Updated(lines, kv), k)
      == if Find(kv, k).Some? then Find(kv, k).value else FirstValue(lines, k)
    ensures AllLines(lines) ==> AllLines(Updated(lines, kv))
  {
    UpdatedLinesRead(lines, kv, k);
    if AllLines(lines) {
      UpdatedLinesAreLines(lines, kv);
    }
    AppendedReads(kv, KeysOf(lines), k);
    AppendedAreLines(kv, KeysOf(lines));
    FirstValueAppend(UpdatedLines(lines, kv), Appended(kv, KeysOf(lines)), k);
  }

  /** The update speaks for this line. */
  predicate Governs(kv: seq<Pair>, line: string) {
    KeyOfLine(line).Some? && Find(kv, KeyOfLine(line).value).Some?
  }

  function Untouched(kv: seq<Pair>, lines: seq<string>): seq<string> {
    Filter((l: string) => !Governs(kv, l), lines)
  }

  lemma {:induction false} UpdatedLinesKeepOthers(lines: seq<string>, kv: seq<Pair>)
    requires IsClean(kv)
    ensures Untouched(kv, UpdatedLines(lines, kv)) == Untouched(kv, lines)
  {
    if lines != [] {
      hide KeyOfLine, IsClean;
      UpdatedLineReads(lines[0], kv);
      UpdatedLinesKeepOthers(lines[1..], kv);
    }
  }

  lemma AssignmentIsGoverned(p: Pair, kv: seq<Pair>)
    requires IsClean(kv) && p in kv
    ensures Governs(kv, Assignment(p.key, p.value))
  {
    hide ReadLine, KeyOfLine, Assignment, IsKey, IsValue;
    AssignmentReadsBack(p.key, p.value);
    KeyAgrees(Assignment(p.key, p.value));
    FindIsMember(kv, p.key);
  }

  lemma {:induction false} AppendedIsGoverned(part: seq<Pair>, kv: seq<Pair>, existing: set<string>)
    requires IsClean(kv) && forall p :: p in part ==> p in kv
    ensures Untouched(kv, Appended(part, existing)) == []
  {
    if part != [] {
      hide KeyOfLine, Assignment, IsClean, Find;
      AssignmentIsGoverned(part[0], kv);
      AppendedIsGoverned(part[1..], kv, existing);
      var line, rest := Assignment(part[0].key, part[0].value), Appended(part[1..], existing);
      assert Appended(part, existing) == rest || Appended(part, existing) == [line] + rest;
      assert ([line] + rest)[1..] == rest;
    }
  }

  /** All lines that the update does not speak for survive verbatim and in order, and nothing else is added. */
  lemma OtherLinesSurvive(lines: seq<string>, kv: seq<Pair>)
    requires IsClean(kv)
    ensures Untouched(kv, Updated(lines, kv)) == Untouched(kv, lines)
  {
    UpdatedLinesKeepOthers(lines, kv);
    AppendedIsGoverned(kv, kv, KeysOf(lines));
    FilterAppend((l: string) => !Governs(kv, l), UpdatedLines(lines, kv), Appended(kv, KeysOf(lines)));
  }

  // Updating again.

  lemma {:induction false} UpdatedLinesTwice(lines: seq<string>, kv: seq<Pair>)
    requires IsClean(kv)
    ensures UpdatedLines(UpdatedLines(lines, kv), kv) == UpdatedLines(lines, kv)
  {
    if lines != [] {
      hide KeyOfLine, IsClean, Assignment;
      UpdatedLineReads(lines[0], kv);
      UpdatedLinesTwice(lines[1..], kv);
    }
  }

  lemma {:induction false} UpdatedLinesAppend(a: seq<string>, b: seq<string>, kv: seq<Pair>)
    ensures UpdatedLines(a + b, kv) == UpdatedLines(a, kv) + UpdatedLines(b, kv)
  {
    hide UpdatedLine;
    if a == [] {
      assert a + b == b;
    } else {
      assert (a + b)[0] == a[0] && (a + b)[1..] == a[1..] + b;
      UpdatedLinesAppend(a[1..], b, kv);
    }
  }

  lemma AssignmentStays(p: Pair, kv: seq<Pair>)
    requires IsClean(kv) && p in kv && Find(kv, p.key) == Some(p.value)
    ensures UpdatedLine(Assignment(p.key, p.value), kv) == Assignment(p.key, p.value)
    ensures KeyOfLine(Assignment(p.key, p.value)) == Some(p.key)
  {
    hide ReadLine, KeyOfLine, Assignment, IsKey, IsValue;
    AssignmentReadsBack(p.key, p.value);
    KeyAgrees(Assignment(p.key, p.value));
  }

  /** Each pair is the one its key finds. */
  lemma {:induction false} MemberIsFound(d: seq<Pair>, p: Pair)
    requires IsDict(d) && p in d
    ensures Find(d, p.key) == Some(p.value)
  {
    if d[0] != p {
      var i :| 0 <= i < |d| && d[i] == p;
      assert d[0].key != d[i].key && d[1..][i - 1] == p;
      MemberIsFound(d[1..], p);
    }
  }

  lemma {:induction false} AppendedStays(part: seq<Pair>, kv: seq<Pair>, existing: set<string>)
    requires IsClean(kv) && forall p :: p in part ==> p in kv
    ensures UpdatedLines(Appended(part, existing), kv) == Appended(part, existing)
  {
    if part != [] {
      hide KeyOfLine, Assignment, Find, UpdatedLine;
      var p := part[0];
      MemberIsFound(kv, p);
      AssignmentStays(p, kv);
      AppendedStays(part[1..], kv, existing);
      OneUpdatedLine(Assignment(p.key, p.value), kv);
      UpdatedLinesAppend([Assignment(p.key, p.value)], Appended(part[1..], existing), kv);
      assert p.key in existing ==> Appended(part, existing) == Appended(part[1..], existing);
    }
  }

  lemma AppendedCons(kv: seq<Pair>, existing: set<string>)
    requires kv != []
    ensures var rest := Appended(kv[1..], existing);
      Appended(kv, existing) == if kv[0].key in existing then rest else [Assignment(kv[0].key, kv[0].value)] + rest
  {
    hide Assignment;
    assert [] + Appended(kv[1..], existing) == Appended(kv[1..], existing);
  }

  lemma {:induction false} AppendedCovers(part: seq<Pair>, kv: seq<Pair>, existing: set<string>, q: Pair)
    requires IsClean(kv) && (forall p :: p in part ==> p in kv) && q in part
    ensures q.key in existing + KeysOf(Appended(part, existing))
  {
    hide *;
    var p, rest := part[0], Appended(part[1..], existing);
    assert part == [p] + part[1..];
    if q != p {
      AppendedCovers(part[1..], kv, existing, q);
    }
    AssignmentMatters(p, kv);
    AppendedCons(part, existing);
    KeysOfCons(Assignment(p.key, p.value), rest);
  }

  lemma AssignmentMatters(p: Pair, kv: seq<Pair>)
    requires IsClean(kv) && p in kv
    ensures KeyOfLine(Assignment(p.key, p.value)) == Some(p.key)
  {
    hide KeyOfLine, Assignment, Find, IsKey, IsValue, UpdatedLine;
    MemberIsFound(kv, p);
    AssignmentStays(p, kv);
  }

  lemma OneUpdatedLine(line: string, kv: seq<Pair>)
    ensures UpdatedLines([line], kv) == [UpdatedLine(line, kv)]
  {
    assert [line][1..] == [];
  }

  lemma {:induction false} NothingAppended(kv: seq<Pair>, existing: set<string>)
    requires forall p :: p in kv ==> p.key in existing
    ensures Appended(kv, existing) == []
  {
    if kv != [] {
      NothingAppended(kv[1..], existing);
    }
  }

  lemma KeysOfAppend(a: seq<string>, b: seq<string>)
    ensures KeysOf(a + b) == KeysOf(a) + KeysOf(b)
  {
    hide KeyOfLine;
    assert forall l :: l in a + b <==> l in a || l in b;
  }

  /** A second update with the same pairs changes nothing. */
  lemma UpdateIsIdempotent(lines: seq<string>, kv: seq<Pair>)
    requires IsClean(kv)
    ensures Updated(Updated(lines, kv), kv) == Updated(lines, kv)
  {
    hide KeysOf, IsClean;
    var front, back := UpdatedLines(lines, kv), Appended(kv, KeysOf(lines));
    UpdatedLinesTwice(lines, kv);
    AppendedStays(kv, kv, KeysOf(lines));
    forall p | p in kv
      ensures p.key in KeysOf(lines) + KeysOf(back)
    {
      AppendedCovers(kv, kv, KeysOf(lines), p);
    }
    UpdatedLinesAppend(front, back, kv);
    UpdatedLinesKeepKeys(lines, kv);
    KeysOfAppend(front, back);
    NothingAppended(kv, KeysOf(front + back));
  }
}
