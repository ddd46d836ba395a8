/** `safe_filename`: sanitise, then truncate by bytes without splitting a code point. Names are taken to
    be in normal form C already. */
module SafeFilename {
  import opened Prelude
  import opened Utf8

  predicate IsForbidden(c: char) {
    || c as int < 0x20
    || c == '/' || c == '\\' || c == ':' || c == '*' || c == '?' || c == '"' || c == '<' || c == '>' || c == '|'
  }

  predicate IsRunChar(c: char) {
    c == ' ' || c == '\t' || c == '\n' || c == '\r' || c == '_'
  }

  predicate IsStrippable(c: char) {
    c == ' ' || c == '.' || c == '_' || c == '-'
  }

  function Replaced(s: string): (r: string)
    ensures |r| == |s|
    ensures forall i :: 0 <= i < |s| ==> r[i] == if IsForbidden(s[i]) then '_' else s[i]
  {
    seq(|s|, i requires 0 <= i < |s| => if IsForbidden(s[i]) then '_' else s[i])
  }

  /** Length of the run of spaces and underscores at the front. */
  function RunLength(s: string): (n: nat)
    ensures n <= |s|
    ensures forall i :: 0 <= i < n ==> IsRunChar(s[i])
    ensures n < |s| ==> !IsRunChar(s[n])
  {
    if s == [] || !IsRunChar(s[0]) then 0 else 1 + RunLength(s[1..])
  }

  /** Every maximal run of two or more becomes one space. */
  function Collapsed(s: string): string {
    if s == [] then []
    else if RunLength(s) >= 2 then [' '] + Collapsed(s[RunLength(s)..])
    else [s[0]] + Collapsed(s[1..])
  }

  function LStrip(s: string): string {
    if s != [] && IsStrippable(s[0]) then LStrip(s[1..]) else s
  }

  function RStrip(s: string): (r: string)
    ensures r <= s
    ensures r != [] ==> !IsStrippable(r[|r| - 1])
  {
    if s != [] && IsStrippable(s[|s| - 1]) then RStrip(s[..|s| - 1]) else s
  }

  function Sanitised(s: string): string {
    RStrip(LStrip(Collapsed(Replaced(s))))
  }

  /** Position of the last dot. */
  function LastDot(s: string): (p: Option<nat>)
    ensures p.Some? ==> p.value < |s| && s[p.value] == '.' && '.' !in s[p.value + 1..]
    ensures p.None? ==> '.' !in s
  {
    if s == [] then None
    else if s[|s| - 1] == '.' then Some(|s| - 1)
    else LastDot(s[..|s| - 1])
  }

  predicate IsAsciiAlnum(c: char) {
    '0' <= c <= '9' || 'A' <= c <= 'Z' || 'a' <= c <= 'z'
  }

  /** `str.isalnum` on one character; `wide` stands for the Unicode tables above ASCII. */
  predicate IsAlnum(wide: char -> bool, c: char) {
    if IsAscii(c) then IsAsciiAlnum(c) else wide(c)
  }

  /** A dot followed by one to six alphanumeric characters. */
  predicate HasExtension(wide: char -> bool, s: string) {
    && LastDot(s).Some?
    && var ext := s[LastDot(s).value + 1..];
       1 <= |ext| <= 6 && forall i :: 0 <= i < |ext| ==> IsAlnum(wide, ext[i])
  }

  function Stem(s: string): string
    requires LastDot(s).Some?
  {
    s[..LastDot(s).value]
  }

  function Extension(s: string): string
    requires LastDot(s).Some?
  {
    s[LastDot(s).value + 1..]
  }

  /** The end of the Python slice `bs[:k]`, which counts from the back when `k` is negative. */
  function SliceEnd(length: nat, k: int): (n: nat)
    ensures n <= length
  {
    if k >= 0 then Min(k, length) else Max(0, length + k)
  }

  /** The stem after byte truncation and before its final strip. */
  function CutStem(stem: string, keep: int): string {
    stem[..Kept(stem, SliceEnd(|Encode(stem)|, keep))]
  }

  /** Whether a stem cut for `keep` bytes survives; otherwise the name "book" takes its place. */
  function ResultStem(stem: string, keep: int): (r: string)
    ensures r != []
  {
    var cut := RStrip(CutStem(stem, keep));
    if cut == [] then "book" else cut
  }

  function Dotted(stem: string, ext: string): string {
    stem + "." + ext
  }

  predicate Truncated(clean: string, maxLength: int) {
    clean != [] && |Encode(clean)| > maxLength
  }

  /** The bytes the source leaves for the stem: it counts the extension in characters. */
  function Share(clean: string, maxLength: int): int
    requires LastDot(clean).Some?
  {
    maxLength - |Extension(clean)| - 1
  }

  /** A sanitised name cut to the limit. */
  function Fitted(wide: char -> bool, clean: string, maxLength: int): string {
    if clean == [] then "book"
    else if !Truncated(clean, maxLength) then clean
    else if HasExtension(wide, clean) then
      Dotted(ResultStem(Stem(clean), Share(clean, maxLength)), Extension(clean))
    else CutStem(clean, maxLength)
  }

  /** The result, in terms of code points only. */
  function SafeName(wide: char -> bool, name: string, maxLength: int): string {
    Fitted(wide, Sanitised(name), maxLength)
  }

  method TrimTailInPlace(bs: seq<Byte>) returns (trimmed: seq<Byte>)
    ensures trimmed == TrimTail(bs)
  {
    trimmed := bs;
    while trimmed != [] && IsContinuation(trimmed[|trimmed| - 1])
      invariant TrimTail(trimmed) == TrimTail(bs)
      decreases |trimmed|
    {
      trimmed := trimmed[..|trimmed| - 1];
    }
  }

  /** Slicing the bytes and trimming what is left of a split character never leaves half a character. */
  method CutBytes(s: string, keep: int) returns (cut: string)
    ensures cut == CutStem(s, keep)
  {
    var end := SliceEnd(|Encode(s)|, keep);
    var bytes := TrimTailInPlace(Encode(s)[..end]);
    TruncationKeepsPrefix(s, end);
    cut := DecodeIgnore(bytes);
  }

  method CutStemBytes(stem: string, ext: string, keep: int) returns (r: string)
    ensures r == Dotted(ResultStem(stem, keep), ext)
  {
    var cut := CutBytes(stem, keep);
    var truncated := RStrip(cut);
    if truncated == [] {
      return Dotted("book", ext);
    }
    return Dotted(truncated, ext);
  }

  method CutToLimit(wide: char -> bool, clean: string, maxLength: int) returns (r: string)
    requires Truncated(clean, maxLength)
    ensures r == Fitted(wide, clean, maxLength)
  {
    if HasExtension(wide, clean) {
      r := CutStemBytes(Stem(clean), Extension(clean), Share(clean, maxLength));
    } else {
      r := CutBytes(clean, maxLength);
    }
  }

  /** Working on bytes as the source does gives exactly the code-point result. */
  method MakeSafeFilename(wide: char -> bool, name: string, maxLength: int) returns (r: string)
    ensures r == SafeName(wide, name, maxLength)
  {
    var clean := Sanitised(name);
    if clean == [] {
      return "book";
    }
    if |Encode(clean)| <= maxLength {
      return clean;
    }
    r := CutToLimit(wide, clean, maxLength);
  }

  // What the sanitiser guarantees.

  ghost predicate Tidy(s: string) {
    && (forall i :: 0 <= i < |s| ==> !IsForbidden(s[i]))
    && (forall i, j :: 0 <= i < j < |s| && j == i + 1 ==> !(IsRunChar(s[i]) && IsRunChar(s[j])))
  }

  ghost predicate Clean(s: string) {
    Tidy(s) && (s != [] ==> !IsStrippable(s[0]) && !IsStrippable(s[|s| - 1]))
  }

  lemma {:induction false} CollapsedIsTidy(s: string)
    requires forall i :: 0 <= i < |s| ==> !IsForbidden(s[i])
    ensures Tidy(Collapsed(s))
    ensures Collapsed(s) == [] <==> s == []
    ensures s != [] ==> (IsRunChar(Collapsed(s)[0]) <==> IsRunChar(s[0]))
    decreases |s|
  {
    if s != [] {
      var n := if RunLength(s) >= 2 then RunLength(s) else 1;
      var head, rest := if RunLength(s) >= 2 then ' ' else s[0], Collapsed(s[n..]);
      CollapsedIsTidy(s[n..]);
      assert Collapsed(s) == [head] + rest;
      assert IsRunChar(head) && rest != [] ==> !IsRunChar(s[n]);
      forall i, j | 0 <= i < j < |rest| + 1 && j == i + 1
        ensures !(IsRunChar(([head] + rest)[i]) && IsRunChar(([head] + rest)[j]))
      {
        if i > 0 {
          assert ([head] + rest)[i] == rest[i - 1] && ([head] + rest)[j] == rest[j - 1];
        }
      }
    }
  }

  lemma {:induction false} LStripIsSuffix(s: string)
    ensures exists k :: 0 <= k <= |s| && LStrip(s) == s[k..]
    ensures LStrip(s) != [] ==> !IsStrippable(LStrip(s)[0])
  {
    if s != [] && IsStrippable(s[0]) {
      LStripIsSuffix(s[1..]);
      var k :| 0 <= k <= |s[1..]| && LStrip(s[1..]) == s[1..][k..];
      assert LStrip(s) == s[k + 1..];
    } else {
      assert LStrip(s) == s[0..];
    }
  }

  lemma TidySlice(s: string, lo: nat, hi: nat)
    requires Tidy(s) && lo <= hi <= |s|
    ensures Tidy(s[lo..hi])
  {
    var t := s[lo..hi];
    forall i, j | 0 <= i < j < |t| && j == i + 1
      ensures !(IsRunChar(t[i]) && IsRunChar(t[j]))
    {
      assert t[i] == s[lo + i] && t[j] == s[lo + j];
    }
  }

  lemma LStripIsTidy(s: string)
    requires Tidy(s)
    ensures Tidy(LStrip(s)) && (LStrip(s) != [] ==> !IsStrippable(LStrip(s)[0]))
  {
    LStripIsSuffix(s);
    var k :| 0 <= k <= |s| && LStrip(s) == s[k..];
    TidySlice(s, k, |s|);
    assert s[k..|s|] == LStrip(s);
  }

  lemma PrefixIsTidy(s: string, t: string)
    requires Tidy(s) && t <= s
    ensures Tidy(t)
  {
    TidySlice(s, 0, |t|);
    assert s[0..|t|] == t;
  }

  lemma StrippedIsClean(s: string)
    requires Tidy(s)
    ensures Clean(RStrip(LStrip(s)))
  {
    LStripIsTidy(s);
    PrefixIsTidy(LStrip(s), RStrip(LStrip(s)));
  }

  /** The sanitised name holds no hostile character, no run, and nothing to strip at either end. */
  lemma SanitisedIsClean(s: string)
    ensures Clean(Sanitised(s))
  {
    CollapsedIsTidy(Replaced(s));
    StrippedIsClean(Collapsed(Replaced(s)));
  }

  lemma {:induction false} TidyIsCollapsed(s: string)
    requires Tidy(s)
    ensures Collapsed(s) == s
  {
    if s != [] {
      assert RunLength(s) < 2;
      TidySlice(s, 1, |s|);
      assert s[1..|s|] == s[1..];
      TidyIsCollapsed(s[1..]);
    }
  }

  lemma TidyOnlyLosesItsEnds(s: string)
    requires Tidy(s) && (s != [] ==> !IsStrippable(s[0]))
    ensures Sanitised(s) == RStrip(s)
  {
    assert Replaced(s) == s;
    TidyIsCollapsed(s);
  }

  lemma CleanIsFixed(s: string)
    requires Clean(s)
    ensures Sanitised(s) == s
  {
    TidyOnlyLosesItsEnds(s);
  }

  // The byte limit.

  /** A truncated stem is a prefix of the stem, in whole code points, fits its share of the bytes, and is at
      most one code point shorter than the longest prefix that does. */
  lemma StemIsNearlyLongest(stem: string, keep: int)
    ensures var share, cut := SliceEnd(|Encode(stem)|, keep), CutStem(stem, keep);
      && cut <= stem && |Encode(cut)| <= share
      && FitsAtMost(stem, share, |cut| + 1)
  {
    KeptIsNearlyLongest(stem, SliceEnd(|Encode(stem)|, keep));
  }

  lemma EncodeDotted(stem: string, ext: string)
    ensures |Encode(Dotted(stem, ext))| == |Encode(stem)| + 1 + |Encode(ext)|
  {
    EncodeAppend(stem + ".", ext);
    EncodeSnoc(stem, '.');
    assert stem + ['.'] == stem + ".";
  }

  lemma EncodeRStrip(s: string)
    ensures |Encode(RStrip(s))| <= |Encode(s)|
  {
    assert s == RStrip(s) + s[|RStrip(s)|..];
    EncodeAppend(RStrip(s), s[|RStrip(s)|..]);
  }

  lemma EncodeOne(c: char)
    ensures Encode([c]) == EncodeChar(c)
  {
    assert [c][1..] == [] && Encode([c]) == EncodeChar(c) + Encode([c][1..]);
  }

  ghost predicate AllAscii(s: string) {
    forall i :: 0 <= i < |s| ==> IsAscii(s[i])
  }

  lemma EncodeAscii(s: string)
    requires AllAscii(s)
    ensures |Encode(s)| == |s|
  {
    EncodeLength(s);
  }

  lemma ResultStemFits(stem: string, keep: int)
    requires keep >= 0
    ensures |Encode(ResultStem(stem, keep))| <= Max(4, keep)
  {
    StemIsNearlyLongest(stem, keep);
    EncodeRStrip(CutStem(stem, keep));
    EncodeAscii("book");
    EncodeLength([]);
  }

  /** Bytes of a kept extension beyond one per character, which the length computation does not see. */
  ghost function Excess(wide: char -> bool, clean: string, maxLength: int): int {
    if Truncated(clean, maxLength) && HasExtension(wide, clean)
    then |Encode(Extension(clean))| - |Extension(clean)| else 0
  }

  lemma FittedWithinLimit(wide: char -> bool, clean: string, maxLength: int)
    requires maxLength >= 4
    requires HasExtension(wide, clean) ==> Share(clean, maxLength) >= 4
    ensures |Encode(Fitted(wide, clean, maxLength))| <= maxLength + Excess(wide, clean, maxLength)
  {
    if clean == [] {
      EncodeAscii("book");
    } else if Truncated(clean, maxLength) {
      if HasExtension(wide, clean) {
        ResultStemFits(Stem(clean), Share(clean, maxLength));
        EncodeDotted(ResultStem(Stem(clean), Share(clean, maxLength)), Extension(clean));
      } else {
        StemIsNearlyLongest(clean, maxLength);
      }
    }
  }

  /** With room for four bytes beside the extension, the limit holds except for what a non-ASCII extension
      adds. */
  lemma WithinLimit(wide: char -> bool, name: string, maxLength: int)
    requires maxLength >= 4
    requires HasExtension(wide, Sanitised(name)) ==> Share(Sanitised(name), maxLength) >= 4
    ensures |Encode(SafeName(wide, name, maxLength))| <= maxLength + Excess(wide, Sanitised(name), maxLength)
    ensures (HasExtension(wide, Sanitised(name)) ==> AllAscii(Extension(Sanitised(name)))) ==>
      |Encode(SafeName(wide, name, maxLength))| <= maxLength
  {
    var clean := Sanitised(name);
    FittedWithinLimit(wide, clean, maxLength);
    if HasExtension(wide, clean) && AllAscii(Extension(clean)) {
      EncodeAscii(Extension(clean));
    }
  }

  lemma DottedParts(stem: string, ext: string)
    requires forall i :: 0 <= i < |ext| ==> ext[i] != '.'
    ensures var r := Dotted(stem, ext); LastDot(r) == Some(|stem|) && Stem(r) == stem && Extension(r) == ext
  {
    var r := Dotted(stem, ext);
    assert r[|stem| + 1..] == ext && r[..|stem|] == stem;
    assert forall i :: |stem| < i < |r| ==> r[i] == ext[i - |stem| - 1];
    LastDotIs(r, |stem|);
  }

  predicate IsExtension(wide: char -> bool, ext: string) {
    1 <= |ext| <= 6 && forall i :: 0 <= i < |ext| ==> IsAlnum(wide, ext[i])
  }

  lemma DottedIsClean(wide: char -> bool, stem: string, ext: string)
    requires IsExtension(wide, ext)
    requires stem != [] && forall i :: 0 <= i < |stem| ==> stem[i] == 'a' || stem[i] as int >= 0x80
    ensures Clean(Dotted(stem, ext))
    ensures LastDot(Dotted(stem, ext)) == Some(|stem|) && HasExtension(wide, Dotted(stem, ext))
    ensures Stem(Dotted(stem, ext)) == stem && Extension(Dotted(stem, ext)) == ext
  {
    var r := Dotted(stem, ext);
    DottedParts(stem, ext);
    forall i | 0 <= i < |r|
      ensures !IsForbidden(r[i]) && !IsRunChar(r[i])
      ensures i != |stem| ==> !IsStrippable(r[i])
    {
      assert r[i] == if i < |stem| then stem[i] else if i == |stem| then '.' else ext[i - |stem| - 1];
    }
  }

  /** One character of four bytes: nothing of it fits, and "book" is just as long. */
  lemma NoRoomForStem(wide: char -> bool, ext: string, maxLength: int) returns (stem: string)
    requires IsExtension(wide, ext) && maxLength < |ext| + 5
    ensures Clean(Dotted(stem, ext)) && HasExtension(wide, Dotted(stem, ext)) && Extension(Dotted(stem, ext)) == ext
    ensures |Encode(Fitted(wide, Dotted(stem, ext), maxLength))| > maxLength
  {
    hide Clean, IsAlnum, HasExtension, LastDot;
    var c := 0x1F600 as char;
    stem := [c];
    DottedIsClean(wide, stem, ext);
    EncodeOne(c);
    EncodeLength(ext);
    EncodeDotted(stem, ext);
    EncodeDotted("book", ext);
    EncodeAscii("book");
    StemIsNearlyLongest(stem, maxLength - |ext| - 1);
    assert CutStem(stem, maxLength - |ext| - 1) == [] || CutStem(stem, maxLength - |ext| - 1) == stem;
  }

  /** A stem that fills its share exactly is kept whole, and the extension takes more than was counted. */
  lemma ExtensionTooLong(wide: char -> bool, ext: string, maxLength: int) returns (stem: string)
    requires IsExtension(wide, ext) && maxLength >= |ext| + 5 && !AllAscii(ext)
    ensures Clean(Dotted(stem, ext)) && HasExtension(wide, Dotted(stem, ext)) && Extension(Dotted(stem, ext)) == ext
    ensures |Encode(Fitted(wide, Dotted(stem, ext), maxLength))| > maxLength
  {
    var keep := maxLength - |ext| - 1;
    stem := seq(keep, i => 'a');
    DottedIsClean(wide, stem, ext);
    EncodeAscii(stem);
    EncodeWide(ext);
    EncodeDotted(stem, ext);
    CutWhole(stem, keep);
    RStripFixed(stem);
  }

  lemma {:induction false} EncodeWide(s: string)
    requires !AllAscii(s)
    ensures |Encode(s)| > |s|
  {
    EncodeLength(s[1..]);
    if IsAscii(s[0]) {
      assert !AllAscii(s[1..]) by {
        var i :| 0 <= i < |s| && !IsAscii(s[i]);
        assert !IsAscii(s[1..][i - 1]);
      }
      EncodeWide(s[1..]);
    }
  }

  /** For which extensions the limit is kept, whatever the stem: exactly for ASCII extensions with at least
      four more bytes and a dot to spare. */
  lemma LimitExactly(wide: char -> bool, ext: string, maxLength: int)
    requires IsExtension(wide, ext)
    ensures (forall clean :: Clean(clean) && HasExtension(wide, clean) && Extension(clean) == ext ==>
              |Encode(Fitted(wide, clean, maxLength))| <= maxLength)
      <==> AllAscii(ext) && maxLength >= |ext| + 5
  {
    if maxLength < |ext| + 5 {
      var stem := NoRoomForStem(wide, ext, maxLength);
      assert Extension(Dotted(stem, ext)) == ext;
    } else if !AllAscii(ext) {
      var stem := ExtensionTooLong(wide, ext, maxLength);
      assert Extension(Dotted(stem, ext)) == ext;
    } else {
      forall clean | Clean(clean) && HasExtension(wide, clean) && Extension(clean) == ext
        ensures |Encode(Fitted(wide, clean, maxLength))| <= maxLength
      {
        FittedWithinLimit(wide, clean, maxLength);
        EncodeAscii(ext);
      }
    }
  }

  // Applying it twice.

  lemma {:induction false} LastDotIs(s: string, p: nat)
    requires p < |s| && s[p] == '.' && forall i :: p < i < |s| ==> s[i] != '.'
    ensures LastDot(s) == Some(p)
  {
    if p < |s| - 1 {
      LastDotIs(s[..|s| - 1], p);
    }
  }

  lemma TidyJoin(a: string, b: string)
    requires Tidy(a) && Tidy(b) && (b != [] ==> !IsRunChar(b[0]))
    ensures Tidy(a + b)
  {
    forall i, j | 0 <= i < j < |a + b| && j == i + 1
      ensures !(IsRunChar((a + b)[i]) && IsRunChar((a + b)[j]))
    {
      if i >= |a| {
        assert (a + b)[i] == b[i - |a|] && (a + b)[j] == b[j - |a|];
      }
    }
  }

  lemma TailIsTidy(clean: string)
    requires Clean(clean) && LastDot(clean).Some?
    ensures var tail := "." + Extension(clean);
      Tidy(tail) && !IsRunChar(tail[0]) && '.' !in Extension(clean) && !IsStrippable(tail[|tail| - 1])
  {
    var p := LastDot(clean).value;
    TidySlice(clean, p, |clean|);
    assert clean[p..|clean|] == "." + Extension(clean);
  }

  lemma CleanJoin(a: string, b: string)
    requires Tidy(a) && a != [] && !IsStrippable(a[0])
    requires Tidy(b) && b != [] && !IsRunChar(b[0]) && !IsStrippable(b[|b| - 1])
    ensures Clean(a + b)
  {
    hide Tidy;
    TidyJoin(a, b);
  }

  /** Joining a tidy stem and the extension of a clean name gives a clean name with that extension. */
  lemma Rejoined(clean: string, stem: string)
    requires Clean(clean) && LastDot(clean).Some?
    requires Tidy(stem) && stem != [] && !IsStrippable(stem[0])
    ensures var r := Dotted(stem, Extension(clean));
      Clean(r) && LastDot(r) == Some(|stem|) && Stem(r) == stem && Extension(r) == Extension(clean)
  {
    hide Tidy, Clean, LastDot, IsStrippable, IsRunChar, IsForbidden;
    TailIsTidy(clean);
    DottedParts(stem, Extension(clean));
    CleanJoin(stem, "." + Extension(clean));
    assert Dotted(stem, Extension(clean)) == stem + ("." + Extension(clean));
  }

  lemma ResultStemIsTidy(clean: string, keep: int)
    requires Clean(clean) && LastDot(clean).Some?
    ensures var stem := ResultStem(Stem(clean), keep);
      Tidy(stem) && !IsStrippable(stem[0]) && !IsStrippable(stem[|stem| - 1])
  {
    hide Tidy, IsStrippable, IsForbidden, IsRunChar;
    BookIsClean();
    var cut := RStrip(CutStem(Stem(clean), keep));
    PrefixIsTidy(clean, cut);
    assert cut != [] ==> cut[0] == clean[0];
  }

  lemma {:induction false} AllFit(s: string)
    ensures FitCount(s, |Encode(s)|) == |s|
  {
    hide EncodeChar;
    if s != [] {
      AllFit(s[1..]);
    }
  }

  /** Cutting a stem that fits its share: nothing happens, unless it ends in a multi-byte character. */
  lemma {:induction false} CutWhole(stem: string, keep: int)
    requires |Encode(stem)| <= keep
    ensures CutStem(stem, keep) == if stem != [] && !IsAscii(stem[|stem| - 1]) then stem[..|stem| - 1] else stem
  {
    AllFit(stem);
    assert stem[..|stem|] == stem;
  }

  lemma RStripFixed(s: string)
    requires s != [] && !IsStrippable(s[|s| - 1])
    ensures RStrip(s) == s
  {
  }

  /** When the stem of a truncated name is its own result. */
  predicate StemStable(stem: string, keep: int)
    requires stem != []
  {
    if keep >= |Encode(stem)| then IsAscii(stem[|stem| - 1]) && !IsStrippable(stem[|stem| - 1])
    else stem == "book" && (keep == 0 || keep <= -4)
  }

  lemma {:induction false} AsciiFits(s: string, k: nat)
    requires AllAscii(s) && k <= |s|
    ensures FitCount(s, k) == k
  {
    if k > 0 {
      AsciiFits(s[1..], k - 1);
    }
  }

  lemma CutBook(keep: int)
    requires keep < 4
    ensures RStrip(CutStem("book", keep)) == [] <==> keep == 0 || keep <= -4
  {
    EncodeAscii("book");
    var end := SliceEnd(4, keep);
    AsciiFits("book", end);
    assert CutStem("book", keep) == "book"[..end];
    assert end > 0 ==> !IsStrippable("book"[..end][end - 1]);
  }

  lemma CutIsShorter(stem: string, keep: int)
    requires stem != [] && keep < |Encode(stem)|
    ensures CutStem(stem, keep) <= stem && |CutStem(stem, keep)| < |stem|
  {
    StemIsNearlyLongest(stem, keep);
    EncodeLength(stem);
    assert stem[..|stem|] == stem;
  }

  lemma StemSurvives(stem: string, keep: int)
    requires stem != []
    ensures ResultStem(stem, keep) == stem <==> StemStable(stem, keep)
  {
    EncodeAscii("book");
    assert "book"[3] == 'k';
    if keep >= |Encode(stem)| {
      CutWhole(stem, keep);
    } else {
      CutIsShorter(stem, keep);
      CutBook(Min(keep, 3));
    }
  }

  lemma DottedInjective(a: string, b: string, ext: string)
    requires Dotted(a, ext) == Dotted(b, ext)
    ensures a == b
  {
    assert |a| == |Dotted(a, ext)| - 1 - |ext| == |b|;
    assert a == Dotted(a, ext)[..|a|] && b == Dotted(b, ext)[..|a|];
  }

  lemma FittedKeepsStem(wide: char -> bool, clean: string, maxLength: int)
    requires Truncated(clean, maxLength) && HasExtension(wide, clean)
    ensures Fitted(wide, clean, maxLength) == clean
      <==> ResultStem(Stem(clean), Share(clean, maxLength)) == Stem(clean)
  {
    assert clean == Dotted(Stem(clean), Extension(clean));
    if Fitted(wide, clean, maxLength) == clean {
      DottedInjective(ResultStem(Stem(clean), Share(clean, maxLength)), Stem(clean), Extension(clean));
    }
  }

  /** A clean name is stable when it fits, or when the stem that truncation leaves is the one it has. */
  ghost predicate IsStable(wide: char -> bool, name: string, maxLength: int) {
    && name != [] && Clean(name)
    && (!Truncated(name, maxLength)
        || (HasExtension(wide, name) && StemStable(Stem(name), Share(name, maxLength))))
  }

  lemma StemOfClean(clean: string)
    requires Clean(clean) && LastDot(clean).Some?
    ensures Stem(clean) != []
  {
  }

  lemma CleanFixedPoints(wide: char -> bool, clean: string, maxLength: int)
    requires Clean(clean)
    ensures SafeName(wide, clean, maxLength) == clean <==> IsStable(wide, clean, maxLength)
  {
    hide Clean, HasExtension, StemStable, ResultStem;
    CleanIsFixed(clean);
    if Truncated(clean, maxLength) {
      if HasExtension(wide, clean) {
        LastDotWhen(wide, clean);
        StemOfClean(clean);
        FittedKeepsStem(wide, clean, maxLength);
        StemSurvives(Stem(clean), Share(clean, maxLength));
      } else {
        CutIsShorter(clean, maxLength);
      }
    }
  }

  lemma LastDotWhen(wide: char -> bool, clean: string)
    requires HasExtension(wide, clean)
    ensures LastDot(clean).Some?
  {
  }

  lemma {:induction false} RStripKeepsFront(s: string)
    requires s != [] && !IsStrippable(s[0])
    ensures RStrip(s) != []
    ensures RStrip(s) == s <==> !IsStrippable(s[|s| - 1])
  {
    if IsStrippable(s[|s| - 1]) {
      RStripKeepsFront(s[..|s| - 1]);
    }
  }

  /** A result is clean unless the cut of a name without an extension left it empty or strippable. */
  lemma FittedIsClean(wide: char -> bool, clean: string, maxLength: int)
    requires Clean(clean)
    requires clean == [] || !Truncated(clean, maxLength) || HasExtension(wide, clean)
    ensures Clean(Fitted(wide, clean, maxLength)) && Fitted(wide, clean, maxLength) != []
  {
    hide Clean, ResultStem;
    if clean == [] {
      BookIsClean();
    } else if Truncated(clean, maxLength) {
      LastDotWhen(wide, clean);
      ResultStemIsTidy(clean, Share(clean, maxLength));
      Rejoined(clean, ResultStem(Stem(clean), Share(clean, maxLength)));
    }
  }

  lemma BookIsClean()
    ensures Clean("book")
  {
  }

  /** Only clean names are stable. */
  lemma FixedIsClean(wide: char -> bool, name: string, maxLength: int)
    requires SafeName(wide, name, maxLength) == name
    ensures Clean(name)
  {
    hide HasExtension, ResultStem, IsForbidden, IsRunChar;
    var clean := Sanitised(name);
    SanitisedIsClean(name);
    if clean == [] || !Truncated(clean, maxLength) || HasExtension(wide, clean) {
      FittedIsClean(wide, clean, maxLength);
    } else {
      CutIsShorter(clean, maxLength);
      PrefixIsTidy(clean, name);
      TidyOnlyLosesItsEnds(name);
      assert false;
    }
  }

  /** Exactly which names a further application leaves alone, for every limit. */
  lemma FixedPoints(wide: char -> bool, name: string, maxLength: int)
    ensures SafeName(wide, name, maxLength) == name <==> IsStable(wide, name, maxLength)
  {
    if SafeName(wide, name, maxLength) == name {
      FixedIsClean(wide, name, maxLength);
    }
    if Clean(name) {
      CleanFixedPoints(wide, name, maxLength);
    }
  }

  /** A result is stable if the name was not cut, or kept an ASCII extension with four bytes to spare. */
  lemma ReapplyingKept(wide: char -> bool, name: string, maxLength: int)
    requires maxLength >= 4
    requires var clean := Sanitised(name); Truncated(clean, maxLength) ==>
      HasExtension(wide, clean) && AllAscii(Extension(clean)) && Share(clean, maxLength) >= 4
    ensures SafeName(wide, SafeName(wide, name, maxLength), maxLength) == SafeName(wide, name, maxLength)
  {
    var clean := Sanitised(name);
    var r := SafeName(wide, name, maxLength);
    SanitisedIsClean(name);
    FittedIsClean(wide, clean, maxLength);
    if clean == [] {
      EncodeAscii("book");
    } else if Truncated(clean, maxLength) {
      FittedWithinLimit(wide, clean, maxLength);
      EncodeAscii(Extension(clean));
    }
    CleanFixedPoints(wide, r, maxLength);
  }

  /** A result cut without an extension is stable exactly when the cut left nothing to strip. */
  lemma ReapplyingCut(wide: char -> bool, name: string, maxLength: int)
    requires maxLength >= 0
    requires Truncated(Sanitised(name), maxLength) && !HasExtension(wide, Sanitised(name))
    ensures var r := SafeName(wide, name, maxLength);
      SafeName(wide, r, maxLength) == r <==> r != [] && !IsStrippable(r[|r| - 1])
  {
    hide HasExtension, Sanitised, IsForbidden, IsRunChar, StemStable;
    var clean, r := Sanitised(name), SafeName(wide, name, maxLength);
    SanitisedIsClean(name);
    CutIsShorter(clean, maxLength);
    StemIsNearlyLongest(clean, maxLength);
    PrefixIsTidy(clean, r);
    assert r != [] ==> r[0] == clean[0];
    FixedPoints(wide, r, maxLength);
  }
}
