/** The pieces of Python's text handling that several files rest on. */
module PyText {
  /** `str.isspace` on one character, which is also what `\s` matches. */
  predicate IsSpace(c: char) {
    var v := c as int;
    || 0x09 <= v <= 0x0D || 0x1C <= v <= 0x20 || v == 0x85 || v == 0xA0 || v == 0x1680
    || 0x2000 <= v <= 0x200A || v == 0x2028 || v == 0x2029 || v == 0x202F || v == 0x205F || v == 0x3000
  }

  /** The end of the run of spaces that starts at `p`. */
  function SkipSpaces(s: string, p: nat): (q: nat)
    requires p <= |s|
    ensures p <= q <= |s|
    ensures forall i :: p <= i < q ==> IsSpace(s[i])
    ensures q < |s| ==> !IsSpace(s[q])
    decreases |s| - p
  {
    if p < |s| && IsSpace(s[p]) then SkipSpaces(s, p + 1) else p
  }

  /** The end of the run of other characters that starts at `p`. */
  function SkipToken(s: string, p: nat): (q: nat)
    requires p <= |s|
    ensures p <= q <= |s|
    ensures forall i :: p <= i < q ==> !IsSpace(s[i])
    ensures q < |s| ==> IsSpace(s[q])
    decreases |s| - p
  {
    if p < |s| && !IsSpace(s[p]) then SkipToken(s, p + 1) else p
  }

  // `lstrip`, `rstrip` and `strip`.

  function TrimLeft(s: string): string {
    s[SkipSpaces(s, 0)..]
  }

  function TrimRight(s: string): (r: string)
    ensures r <= s
    ensures r != [] ==> !IsSpace(r[|r| - 1])
    ensures forall i :: |r| <= i < |s| ==> IsSpace(s[i])
  {
    if s != [] && IsSpace(s[|s| - 1]) then TrimRight(s[..|s| - 1]) else s
  }

  function Trim(s: string): string {
    TrimRight(TrimLeft(s))
  }

  predicate AllSpace(s: string) {
    forall i :: 0 <= i < |s| ==> IsSpace(s[i])
  }

  /** Nothing to strip. */
  predicate IsTrimmed(s: string) {
    s != [] ==> !IsSpace(s[0]) && !IsSpace(s[|s| - 1])
  }

  lemma {:induction false} TrimRightEnd(s: string, n: nat)
    requires n <= |s| && (n > 0 ==> !IsSpace(s[n - 1])) && forall i :: n <= i < |s| ==> IsSpace(s[i])
    ensures TrimRight(s) == s[..n]
  {
    if n < |s| {
      TrimRightEnd(s[..|s| - 1], n);
    } else {
      assert s[..n] == s;
    }
  }

  lemma TrimLeftStart(s: string, n: nat)
    requires n <= |s| && (n < |s| ==> !IsSpace(s[n])) && forall i :: 0 <= i < n ==> IsSpace(s[i])
    ensures TrimLeft(s) == s[n..]
  {
  }

  /** Stripping finds the core of anything padded with spaces. */
  lemma TrimPadded(left: string, core: string, right: string)
    requires AllSpace(left) && AllSpace(right) && IsTrimmed(core)
    ensures Trim(left + core + right) == core
  {
    var s := left + core + right;
    if core == [] {
      assert AllSpace(s);
      TrimLeftStart(s, |s|);
      assert TrimLeft(s) == [];
    } else {
      assert s[|left|] == core[0];
      TrimLeftStart(s, |left|);
      var t := s[|left|..];
      assert t == core + right;
      TrimRightEnd(t, |core|);
    }
  }

  /** Anything is a trimmed core between spaces. */
  lemma Padding(s: string) returns (left: string, right: string)
    ensures s == left + Trim(s) + right && AllSpace(left) && AllSpace(right) && IsTrimmed(Trim(s))
  {
    var n := SkipSpaces(s, 0);
    var t := TrimLeft(s);
    left, right := s[..n], t[|Trim(s)|..];
    assert t == Trim(s) + right;
    assert Trim(s) != [] ==> Trim(s)[0] == t[0] == s[n];
  }

  lemma TrimPad(left: string, s: string, right: string)
    requires AllSpace(left) && AllSpace(right)
    ensures Trim(left + s + right) == Trim(s)
  {
    var a, b := Padding(s);
    assert left + s + right == (left + a) + Trim(s) + (b + right);
    TrimPadded(left + a, Trim(s), b + right);
  }

  lemma TrimTrimmed(s: string)
    requires IsTrimmed(s)
    ensures Trim(s) == s
  {
    TrimPadded([], s, []);
    assert [] + s + [] == s;
  }

  // `splitlines`, and `"\n".join(lines) + "\n"`.

  predicate IsBreak(c: char) {
    var v := c as int;
    0x0A <= v <= 0x0D || 0x1C <= v <= 0x1E || v == 0x85 || v == 0x2028 || v == 0x2029
  }

  predicate IsLine(s: string) {
    forall i :: 0 <= i < |s| ==> !IsBreak(s[i])
  }

  function LineEnd(s: string): (n: nat)
    ensures n <= |s| && IsLine(s[..n]) && (n < |s| ==> IsBreak(s[n]))
  {
    if s == [] || IsBreak(s[0]) then 0
    else
      var n := LineEnd(s[1..]);
      assert s[..n + 1] == [s[0]] + s[1..][..n];
      1 + n
  }

  function SplitLines(s: string): seq<string> {
    if s == [] then []
    else
      var n := LineEnd(s);
      if n == |s| then [s]
      else if s[n] == '\r' && n + 1 < |s| && s[n + 1] == '\n' then [s[..n]] + SplitLines(s[n + 2..])
      else [s[..n]] + SplitLines(s[n + 1..])
  }

  /** Every line ended by a line feed. */
  function Terminated(lines: seq<string>): string {
    if lines == [] then [] else lines[0] + "\n" + Terminated(lines[1..])
  }

  /** `"\n".join(lines) + "\n"`; no lines at all still give one line feed. */
  function Unlines(lines: seq<string>): string {
    if lines == [] then "\n" else Terminated(lines)
  }

  ghost predicate AllLines(lines: seq<string>) {
    forall l :: l in lines ==> IsLine(l)
  }

  lemma {:induction false} LineEndAt(s: string, n: nat)
    requires n < |s| && IsBreak(s[n]) && forall i :: 0 <= i < n ==> !IsBreak(s[i])
    ensures LineEnd(s) == n
  {
    if n > 0 {
      LineEndAt(s[1..], n - 1);
    }
  }

  lemma {:induction false} SplitTerminated(lines: seq<string>)
    requires AllLines(lines)
    ensures SplitLines(Terminated(lines)) == lines
  {
    if lines != [] {
      var rest := Terminated(lines[1..]);
      var s, n := Terminated(lines), |lines[0]|;
      assert lines[0] in lines;
      assert s[n] == '\n' && s[..n] == lines[0] && s[n + 1..] == rest;
      LineEndAt(s, n);
      SplitTerminated(lines[1..]);
    }
  }

  /** Reading back what was joined gives the lines again; nothing at all comes back as one empty line. */
  lemma SplitUnlines(lines: seq<string>)
    requires AllLines(lines)
    ensures SplitLines(Unlines(lines)) == if lines == [] then [""] else lines
  {
    if lines == [] {
      LineEndAt("\n", 0);
      assert SplitLines("\n"[1..]) == [];
    } else {
      SplitTerminated(lines);
    }
  }

  lemma {:induction false} SplitGivesLines(s: string)
    ensures AllLines(SplitLines(s))
    decreases |s|
  {
    if s != [] {
      var n := LineEnd(s);
      if n == |s| {
        assert s[..n] == s;
      } else if s[n] == '\r' && n + 1 < |s| && s[n + 1] == '\n' {
        SplitGivesLines(s[n + 2..]);
      } else {
        SplitGivesLines(s[n + 1..]);
      }
    }
  }
}
