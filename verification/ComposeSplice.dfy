/** The image line of the `bookorbit` service: how it is found, and the splice that replaces its reference.
    The search is the regular expression `(?m)^(  bookorbit:\n(?:    [^\n]*\n)*?    image:\s*)(\S+)`. */
module ComposeSplice {
  import opened Prelude
  import opened PyText

  /** The stretch `text[from..to]` a search found. */
  datatype Span = Span(from: nat, to: nat)

  const HEADER := "  bookorbit:\n"
  const INDENT := "    "
  const IMAGE := "    image:"

  predicate HasAt(text: string, p: nat, word: string) {
    p + |word| <= |text| && text[p..p + |word|] == word
  }

  predicate IsLineStart(text: string, p: nat) {
    p <= |text| && (p == 0 || text[p - 1] == '\n')
  }

  /** The start of the line after the one `p` is on. */
  function NextLine(text: string, p: nat): (q: Option<nat>)
    requires p <= |text|
    ensures q.Some? ==> p < q.value <= |text| && text[q.value - 1] == '\n'
    ensures q.Some? ==> forall i :: p <= i < q.value - 1 ==> text[i] != '\n'
    ensures q.None? ==> forall i :: p <= i < |text| ==> text[i] != '\n'
    decreases |text| - p
  {
    if p == |text| then None
    else if text[p] == '\n' then Some(p + 1)
    else NextLine(text, p + 1)
  }

  /** `    image:\s*(\S+)` at `p`. */
  function ImageAt(text: string, p: nat): Option<Span> {
    if !HasAt(text, p, IMAGE) then None
    else
      var q := SkipSpaces(text, p + |IMAGE|);
      if q == |text| then None else Some(Span(q, SkipToken(text, q)))
  }

  /** The line after an indented one. */
  function SkipLine(text: string, p: nat): (q: Option<nat>)
    ensures q.Some? ==> p + 4 < q.value <= |text|
  {
    if HasAt(text, p, INDENT) then NextLine(text, p + 4) else None
  }

  /** Indented lines are skipped one by one, the fewest first, until the image line matches. */
  function MatchLines(text: string, p: nat): Option<Span>
    decreases if p < |text| then |text| - p else 0
  {
    if ImageAt(text, p).Some? then ImageAt(text, p)
    else if SkipLine(text, p).Some? then MatchLines(text, SkipLine(text, p).value)
    else None
  }

  function MatchHeader(text: string, p: nat): Option<Span> {
    if IsLineStart(text, p) && HasAt(text, p, HEADER) then MatchLines(text, p + |HEADER|) else None
  }

  /** The leftmost match at or after `p`. */
  function Find(text: string, p: nat): Option<Span>
    decreases if p <= |text| then |text| - p + 1 else 0
  {
    if p > |text| then None
    else if MatchHeader(text, p).Some? then MatchHeader(text, p)
    else Find(text, p + 1)
  }

  function Replaced(text: string, span: Span, ref: string): string
    requires span.from <= span.to <= |text|
  {
    text[..span.from] + ref + text[span.to..]
  }

  datatype Swap = Swapped(oldRef: string, text: string) | NotFound | BadRef

  predicate HasBreak(ref: string) {
    '\n' in ref || '\r' in ref
  }

  function SwapImage(text: string, ref: string): (r: Swap)
    ensures r.BadRef? <==> HasBreak(ref)
    ensures r.NotFound? <==> !HasBreak(ref) && Find(text, 0).None?
  {
    if HasBreak(ref) then BadRef
    else
      var span := Find(text, 0);
      if span.None? then NotFound
      else
        FoundIsToken(text, 0);
        Swapped(text[span.value.from..span.value.to], Replaced(text, span.value, ref))
  }

  // What a match is.

  ghost predicate IsToken(text: string, span: Span) {
    && span.from < span.to <= |text|
    && (forall i :: span.from <= i < span.to ==> !IsSpace(text[i]))
    && (span.to < |text| ==> IsSpace(text[span.to]))
  }

  lemma {:induction false} LinesFindToken(text: string, p: nat)
    requires MatchLines(text, p).Some?
    ensures IsToken(text, MatchLines(text, p).value) && p + |IMAGE| <= MatchLines(text, p).value.from
    decreases if p < |text| then |text| - p else 0
  {
    if ImageAt(text, p).None? {
      LinesFindToken(text, SkipLine(text, p).value);
    }
  }

  lemma {:induction false} FoundIsToken(text: string, p: nat)
    requires Find(text, p).Some?
    ensures IsToken(text, Find(text, p).value)
    decreases if p <= |text| then |text| - p + 1 else 0
  {
    if MatchHeader(text, p).Some? {
      LinesFindToken(text, p + |HEADER|);
    } else {
      FoundIsToken(text, p + 1);
    }
  }

  /** Line `l` is reached from line `p` over indented lines. */
  ghost predicate Reaches(text: string, p: nat, l: nat)
    decreases if p < |text| then |text| - p else 0
  {
    p == l || (SkipLine(text, p).Some? && Reaches(text, SkipLine(text, p).value, l))
  }

  lemma {:induction false} ReachesForward(text: string, p: nat, l: nat)
    requires Reaches(text, p, l)
    ensures p <= l
    decreases if p < |text| then |text| - p else 0
  {
    if p != l {
      ReachesForward(text, SkipLine(text, p).value, l);
    }
  }

  /** The image line is the first one reached that carries a reference at all. */
  lemma {:induction false} FirstImageLine(text: string, p: nat) returns (l: nat)
    requires MatchLines(text, p).Some?
    ensures Reaches(text, p, l) && ImageAt(text, l) == MatchLines(text, p)
    ensures forall m :: 0 <= m < l && Reaches(text, p, m) ==> ImageAt(text, m).None?
    decreases if p < |text| then |text| - p else 0
  {
    if ImageAt(text, p).Some? {
      l := p;
      forall m | 0 <= m && Reaches(text, p, m)
        ensures l <= m
      {
        ReachesForward(text, p, m);
      }
    } else {
      l := FirstImageLine(text, SkipLine(text, p).value);
    }
  }

  lemma {:induction false} NoImageLine(text: string, p: nat, l: nat)
    requires MatchLines(text, p).None? && Reaches(text, p, l)
    ensures ImageAt(text, l).None?
    decreases if p < |text| then |text| - p else 0
  {
    if p != l {
      NoImageLine(text, SkipLine(text, p).value, l);
    }
  }

  /** A search that succeeds took the leftmost header that has an image line below it. */
  lemma {:induction false} Leftmost(text: string, p: nat) returns (h: nat)
    requires Find(text, p).Some?
    ensures p <= h && Find(text, p) == MatchHeader(text, h)
    ensures forall k :: p <= k < h ==> MatchHeader(text, k).None?
    decreases if p <= |text| then |text| - p + 1 else 0
  {
    if MatchHeader(text, p).Some? {
      h := p;
    } else {
      h := Leftmost(text, p + 1);
    }
  }

  // What a changed tail does not disturb.

  /** Both texts start with the same `n` characters. */
  ghost predicate Agree(a: string, b: string, n: nat) {
    n <= |a| && n <= |b| && a[..n] == b[..n]
  }

  lemma AgreeHasAt(a: string, b: string, n: nat, p: nat, word: string)
    requires Agree(a, b, n) && p + |word| <= n
    ensures HasAt(a, p, word) == HasAt(b, p, word)
  {
    assert a[p..p + |word|] == a[..n][p..p + |word|];
    assert b[p..p + |word|] == b[..n][p..p + |word|];
  }

  lemma AgreeNextLine(a: string, b: string, n: nat, p: nat)
    requires Agree(a, b, n) && p <= n
    requires NextLine(a, p).Some? && NextLine(a, p).value <= n
    ensures NextLine(b, p) == NextLine(a, p)
  {
    var q := NextLine(a, p).value;
    assert forall i :: 0 <= i < n ==> a[i] == a[..n][i] && b[i] == b[..n][i];
    assert b[q - 1] == '\n';
  }

  lemma AgreeSkipLine(a: string, b: string, n: nat, p: nat)
    requires Agree(a, b, n) && SkipLine(a, p).Some? && SkipLine(a, p).value <= n
    ensures SkipLine(b, p) == SkipLine(a, p)
  {
    AgreeHasAt(a, b, n, p, INDENT);
    AgreeNextLine(a, b, n, p + 4);
  }

  lemma SpacesEndAt(s: string, p: nat, q: nat)
    requires p <= q < |s| && !IsSpace(s[q]) && forall i :: p <= i < q ==> IsSpace(s[i])
    ensures SkipSpaces(s, p) == q
  {
  }

  /** `after` differs from `before` only from the found reference on, and a token still starts there. */
  ghost predicate Respliced(before: string, after: string, span: Span) {
    && IsToken(before, span) && Agree(before, after, span.from)
    && span.from < |after| && !IsSpace(after[span.from])
  }

  lemma SameImage(before: string, after: string, p: nat)
    requires ImageAt(before, p).Some? && Respliced(before, after, ImageAt(before, p).value)
    ensures var from := ImageAt(before, p).value.from; ImageAt(after, p) == Some(Span(from, SkipToken(after, from)))
  {
    var from := ImageAt(before, p).value.from;
    AgreeHasAt(before, after, from, p, IMAGE);
    assert forall i :: 0 <= i < from ==> before[i] == before[..from][i] && after[i] == after[..from][i];
    SpacesEndAt(after, p + |IMAGE|, from);
  }

  lemma NoImageLiteral(text: string, p: nat, k: nat)
    requires p + |IMAGE| <= k < |text| && !IsSpace(text[k]) && ImageAt(text, p).None?
    ensures !HasAt(text, p, IMAGE)
  {
  }

  lemma {:induction false} SameLines(before: string, after: string, p: nat)
    requires MatchLines(before, p).Some? && Respliced(before, after, MatchLines(before, p).value)
    ensures var from := MatchLines(before, p).value.from;
      MatchLines(after, p) == Some(Span(from, SkipToken(after, from)))
    decreases if p < |before| then |before| - p else 0
  {
    var from := MatchLines(before, p).value.from;
    if ImageAt(before, p).Some? {
      SameImage(before, after, p);
    } else {
      var next := SkipLine(before, p).value;
      LinesFindToken(before, next);
      NoImageLiteral(before, p, from);
      AgreeHasAt(before, after, from, p, IMAGE);
      AgreeSkipLine(before, after, from, p);
      SameLines(before, after, next);
    }
  }

  lemma HeaderIsNotIndented(text: string, h: nat)
    requires HasAt(text, h, HEADER)
    ensures !HasAt(text, h, INDENT)
  {
    assert text[h..h + |INDENT|] == text[h..h + |HEADER|][..|INDENT|];
    assert HEADER[..|INDENT|][2] == 'b';
  }

  /** A header that has no image line keeps having none: its lines end before the next header. */
  lemma {:induction false} StillNoLines(before: string, after: string, n: nat, p: nat, h: nat)
    requires Agree(before, after, n) && h + |HEADER| + |IMAGE| <= n < |before| && !IsSpace(before[n])
    requires p <= h && IsLineStart(before, h) && HasAt(before, h, HEADER)
    requires MatchLines(before, p).None?
    ensures MatchLines(after, p).None?
    decreases h - p
  {
    NoImageLiteral(before, p, n);
    AgreeHasAt(before, after, n, p, IMAGE);
    AgreeHasAt(before, after, n, p, INDENT);
    if p == h {
      HeaderIsNotIndented(before, h);
    } else if HasAt(before, p, INDENT) {
      assert forall i :: p <= i < p + 4 ==> before[i] == before[p..p + 4][i - p] == ' ';
      assert before[h - 1] == '\n';
      AgreeNextLine(before, after, n, p + 4);
      StillNoLines(before, after, n, NextLine(before, p + 4).value, h);
    }
  }

  lemma StillNoHeader(before: string, after: string, n: nat, p: nat, h: nat)
    requires Agree(before, after, n) && h + |HEADER| + |IMAGE| <= n < |before| && !IsSpace(before[n])
    requires p < h && IsLineStart(before, h) && HasAt(before, h, HEADER)
    requires MatchHeader(before, p).None?
    ensures MatchHeader(after, p).None?
  {
    assert forall i :: 0 <= i < n ==> before[i] == before[..n][i] && after[i] == after[..n][i];
    AgreeHasAt(before, after, n, p, HEADER);
    if IsLineStart(before, p) && HasAt(before, p, HEADER) {
      assert forall i :: p <= i < p + |HEADER| ==> before[i] == before[p..p + |HEADER|][i - p];
      assert before[h - 1] == '\n';
      StillNoLines(before, after, n, p + |HEADER|, h);
    }
  }

  lemma {:induction false} FindFrom(text: string, p: nat, h: nat)
    requires p <= h <= |text| && MatchHeader(text, h).Some?
    requires forall k :: p <= k < h ==> MatchHeader(text, k).None?
    ensures Find(text, p) == MatchHeader(text, h)
    decreases h - p
  {
    if p < h {
      FindFrom(text, p + 1, h);
    }
  }

  lemma SameHeader(before: string, after: string, h: nat)
    requires MatchHeader(before, h).Some? && Respliced(before, after, MatchHeader(before, h).value)
    ensures var from := MatchHeader(before, h).value.from;
      h + |HEADER| + |IMAGE| <= from && MatchHeader(after, h) == Some(Span(from, SkipToken(after, from)))
  {
    var from := MatchHeader(before, h).value.from;
    LinesFindToken(before, h + |HEADER|);
    AgreeHasAt(before, after, from, h, HEADER);
    assert h > 0 ==> before[..from][h - 1] == after[..from][h - 1];
    SameLines(before, after, h + |HEADER|);
  }

  /** Whatever replaces the reference, if it starts with a token the search finds exactly that token. */
  lemma FindsReplacement(before: string, after: string)
    requires Find(before, 0).Some? && Respliced(before, after, Find(before, 0).value)
    ensures var from := Find(before, 0).value.from;
      Find(after, 0) == Some(Span(from, SkipToken(after, from)))
  {
    var h := Leftmost(before, 0);
    SameHeader(before, after, h);
    forall p | 0 <= p < h
      ensures MatchHeader(after, p).None?
    {
      StillNoHeader(before, after, Find(before, 0).value.from, p, h);
    }
    FindFrom(after, 0, h);
  }

  // The laws.

  ghost predicate IsRef(ref: string) {
    ref != [] && forall i :: 0 <= i < |ref| ==> !IsSpace(ref[i])
  }

  /** Where the replaced reference lies: on the first line with a reference that indented lines reach from
      the leftmost header that has one. Headers further up, and image lines of other services, are passed. */
  lemma Located(text: string) returns (h: nat, l: nat)
    requires Find(text, 0).Some?
    ensures IsLineStart(text, h) && HasAt(text, h, HEADER) && Reaches(text, h + |HEADER|, l)
    ensures HasAt(text, l, IMAGE) && Find(text, 0).value.from == SkipSpaces(text, l + |IMAGE|)
    ensures forall m :: 0 <= m < l && Reaches(text, h + |HEADER|, m) ==> ImageAt(text, m).None?
    ensures forall k, m :: (0 <= k < h && IsLineStart(text, k) && HasAt(text, k, HEADER)
                            && 0 <= m && Reaches(text, k + |HEADER|, m)) ==> ImageAt(text, m).None?
  {
    hide SkipLine, SkipSpaces, SkipToken, MatchLines;
    h := Leftmost(text, 0);
    l := FirstImageLine(text, h + |HEADER|);
    forall k, m | 0 <= k < h && IsLineStart(text, k) && HasAt(text, k, HEADER)
      && 0 <= m && Reaches(text, k + |HEADER|, m)
      ensures ImageAt(text, m).None?
    {
      assert MatchHeader(text, k).None?;
      NoImageLine(text, k + |HEADER|, m);
    }
  }

  /** The search fails exactly when no header has an image line with a reference. */
  lemma NotLocated(text: string, h: nat, l: nat)
    requires Find(text, 0).None? && h <= |text|
    requires IsLineStart(text, h) && HasAt(text, h, HEADER) && Reaches(text, h + |HEADER|, l)
    ensures ImageAt(text, l).None?
  {
    NoneFound(text, 0, h);
    NoImageLine(text, h + |HEADER|, l);
  }

  lemma {:induction false} NoneFound(text: string, p: nat, h: nat)
    requires Find(text, p).None? && p <= h <= |text|
    ensures MatchHeader(text, h).None?
    decreases h - p
  {
    if p < h {
      NoneFound(text, p + 1, h);
    }
  }

  /** The end of the line `p` is on, with its line feed if it has one. */
  function LineStop(text: string, p: nat): (q: nat)
    requires p <= |text|
    ensures p <= q <= |text|
    ensures forall i :: p <= i < q - 1 ==> text[i] != '\n'
    ensures q == |text| || (p < q && text[q - 1] == '\n')
  {
    if NextLine(text, p).Some? then NextLine(text, p).value else |text|
  }

  lemma ReferenceOnLine(text: string, l: nat)
    requires ImageAt(text, l).Some?
    ensures HasAt(text, l, IMAGE) && l + |IMAGE| <= |text|
    ensures var span, stop := ImageAt(text, l).value, LineStop(text, l + |IMAGE|);
      && l + |IMAGE| <= span.from < span.to
      && (span.from < stop <==> exists i :: l + |IMAGE| <= i < stop && !IsSpace(text[i]))
      && (span.from < stop ==> span.to <= stop)
  {
    var span, stop := ImageAt(text, l).value, LineStop(text, l + |IMAGE|);
    assert !IsSpace(text[span.from]) && IsSpace('\n');
    assert stop < |text| ==> IsSpace(text[stop - 1]);
  }

  /** Where a swap writes: on the image line it found if that line holds anything but spaces after the colon,
      and otherwise beyond that line altogether, because the pattern for spaces crosses line ends. */
  lemma OnImageLine(text: string) returns (h: nat, l: nat)
    requires Find(text, 0).Some?
    ensures IsLineStart(text, h) && HasAt(text, h, HEADER) && Reaches(text, h + |HEADER|, l)
    ensures HasAt(text, l, IMAGE) && l + |IMAGE| <= |text| && ImageAt(text, l) == Find(text, 0)
    ensures var span, stop := Find(text, 0).value, LineStop(text, l + |IMAGE|);
      if exists i :: l + |IMAGE| <= i < stop && !IsSpace(text[i])
      then l + |IMAGE| <= span.from < span.to <= stop
      else stop <= span.from
  {
    hide ImageAt, MatchLines, LineStop, SkipLine;
    h := Leftmost(text, 0);
    l := FirstImageLine(text, h + |HEADER|);
    ReferenceOnLine(text, l);
  }

  // A file on which it writes beyond the line.

  function BareImage(word: string): string {
    HEADER + IMAGE + "\n" + INDENT + word + "\n"
  }

  lemma BareImageMatches(word: string)
    requires IsRef(word)
    ensures var from := |HEADER| + |IMAGE| + 1 + |INDENT|;
      Find(BareImage(word), 0) == Some(Span(from, from + |word|))
  {
    var text, p := BareImage(word), |HEADER|;
    var from := p + |IMAGE| + 1 + |INDENT|;
    assert text[0..p] == HEADER && text[p..p + |IMAGE|] == IMAGE;
    assert text[p + |IMAGE|] == '\n' && text[from - |INDENT|..from] == INDENT;
    assert text[from..from + |word|] == word && text[from + |word|] == '\n';
    assert forall i :: from <= i < from + |word| ==> text[i] == word[i - from];
    assert forall i :: from - |INDENT| <= i < from ==> text[i] == INDENT[i - (from - |INDENT|)];
    SpacesEndAt(text, p + |IMAGE|, from);
    TokenEndsAt(text, from, from + |word|);
    assert ImageAt(text, p) == Some(Span(from, from + |word|));
    assert MatchHeader(text, 0) == ImageAt(text, p);
  }

  /** An image line without a reference: the swap overwrites the first word of the next line, here a key. */
  lemma OverwritesNextKey(word: string, ref: string)
    requires IsRef(word) && !HasBreak(ref)
    ensures SwapImage(BareImage(word), ref) == Swapped(word, BareImage(ref))
  {
    BareImageMatches(word);
    var text, from := BareImage(word), |HEADER| + |IMAGE| + 1 + |INDENT|;
    assert text[from..from + |word|] == word;
    assert text[..from] == HEADER + IMAGE + "\n" + INDENT && text[from + |word|..] == "\n";
  }

  lemma PortsOverwritten()
    ensures SwapImage("  bookorbit:\n    image:\n    ports:\n", "r:1")
         == Swapped("ports:", "  bookorbit:\n    image:\n    r:1\n")
  {
    assert IsRef("ports:");
    assert BareImage("ports:") == "  bookorbit:\n    image:\n    ports:\n";
    assert BareImage("r:1") == "  bookorbit:\n    image:\n    r:1\n";
    OverwritesNextKey("ports:", "r:1");
  }

  lemma SwapResplices(text: string, ref: string)
    requires SwapImage(text, ref).Swapped? && ref != [] && !IsSpace(ref[0])
    ensures Respliced(text, SwapImage(text, ref).text, Find(text, 0).value)
  {
    var span := Find(text, 0).value;
    FoundIsToken(text, 0);
    var after := Replaced(text, span, ref);
    assert after[..span.from] == text[..span.from] && after[span.from] == ref[0];
  }

  lemma TokenEndsAt(s: string, p: nat, q: nat)
    requires p <= q <= |s| && (q < |s| ==> IsSpace(s[q])) && forall i :: p <= i < q ==> !IsSpace(s[i])
    ensures SkipToken(s, p) == q
  {
  }

  lemma WrittenTokenEnds(text: string, span: Span, ref: string)
    requires IsToken(text, span)
    ensures SkipToken(Replaced(text, span, ref), span.from) == span.from + SkipToken(ref, 0)
  {
    var after, n := Replaced(text, span, ref), SkipToken(ref, 0);
    assert forall i :: span.from <= i < span.from + |ref| ==> after[i] == ref[i - span.from];
    assert span.from + |ref| < |after| ==> after[span.from + |ref|] == text[span.to];
    TokenEndsAt(after, span.from, span.from + n);
  }

  /** After a swap the search finds the leading token of what was written. */
  lemma FindsWritten(text: string, ref: string)
    requires SwapImage(text, ref).Swapped? && ref != [] && !IsSpace(ref[0])
    ensures var from := Find(text, 0).value.from;
      Find(SwapImage(text, ref).text, 0) == Some(Span(from, from + SkipToken(ref, 0)))
  {
    FoundIsToken(text, 0);
    SwapResplices(text, ref);
    FindsReplacement(text, SwapImage(text, ref).text);
    WrittenTokenEnds(text, Find(text, 0).value, ref);
  }

  lemma WholeToken(ref: string)
    requires ref != [] && !IsSpace(ref[0])
    ensures SkipToken(ref, 0) > 0
    ensures SkipToken(ref, 0) == |ref| <==> IsRef(ref)
  {
  }

  /** What comes out of a swap is always a reference. */
  lemma OldIsRef(text: string, ref: string)
    requires SwapImage(text, ref).Swapped?
    ensures IsRef(SwapImage(text, ref).oldRef) && !HasBreak(SwapImage(text, ref).oldRef)
  {
    FoundIsToken(text, 0);
  }

  /** Writing back what was read changes nothing. */
  lemma GetPut(text: string, ref: string)
    requires SwapImage(text, ref).Swapped?
    ensures var was := SwapImage(text, ref).oldRef; SwapImage(text, was) == Swapped(was, text)
  {
    FoundIsToken(text, 0);
    OldIsRef(text, ref);
    var span := Find(text, 0).value;
    assert Replaced(text, span, text[span.from..span.to]) == text;
  }

  /** What was written is read back, and a second write leaves no trace of the first. */
  lemma PutPut(text: string, first: string, second: string)
    requires SwapImage(text, first).Swapped? && IsRef(first) && !HasBreak(second)
    ensures SwapImage(SwapImage(text, first).text, second) == Swapped(first, SwapImage(text, second).text)
  {
    FoundIsToken(text, 0);
    FindsWritten(text, first);
    WholeToken(first);
    var span, after := Find(text, 0).value, SwapImage(text, first).text;
    var written := Span(span.from, span.from + |first|);
    assert after[written.from..written.to] == first;
    assert after[..written.from] == text[..span.from] && after[written.to..] == text[span.to..];
  }

  /** A second swap reads back what the first wrote exactly when that was a reference. */
  lemma PutGet(text: string, first: string, second: string)
    requires SwapImage(text, first).Swapped? && !HasBreak(second)
    ensures SwapImage(SwapImage(text, first).text, second).Swapped?
        && SwapImage(SwapImage(text, first).text, second).oldRef == first
      <==> IsRef(first)
  {
    if IsRef(first) {
      PutPut(text, first, second);
    } else if SwapImage(SwapImage(text, first).text, second).Swapped? {
      OldIsRef(SwapImage(text, first).text, second);
    }
  }

  /** Swapping the old reference back restores the text exactly when no space was written. */
  lemma Restores(text: string, ref: string)
    requires SwapImage(text, ref).Swapped? && ref != [] && !IsSpace(ref[0])
    ensures var was, after := SwapImage(text, ref).oldRef, SwapImage(text, ref).text;
      && SwapImage(after, was).Swapped?
      && (SwapImage(after, was).text == text <==> IsRef(ref))
      && |SwapImage(after, was).text| == |text| + |ref| - SkipToken(ref, 0)
  {
    var was, after := SwapImage(text, ref).oldRef, SwapImage(text, ref).text;
    OldIsRef(text, ref);
    FoundIsToken(text, 0);
    FindsWritten(text, ref);
    WholeToken(ref);
    if IsRef(ref) {
      PutPut(text, ref, was);
      GetPut(text, ref);
    }
  }

  /** Without a token at its start a written reference moves the place the next search finds. */
  lemma FindsElsewhere(text: string, ref: string)
    requires SwapImage(text, ref).Swapped? && (ref == [] || IsSpace(ref[0]))
    requires Find(SwapImage(text, ref).text, 0).Some?
    ensures Find(SwapImage(text, ref).text, 0).value.from >= Find(text, 0).value.from
  {
    var after, span := SwapImage(text, ref).text, Find(text, 0).value;
    var later := Find(after, 0).value;
    FoundIsToken(text, 0);
    FoundIsToken(after, 0);
    if later.from < span.from {
      assert after[..later.from] == text[..later.from] && after[later.from] == text[later.from];
      FindsReplacement(after, text);
    }
  }

  lemma NotRestored(text: string, ref: string)
    requires SwapImage(text, ref).Swapped? && (ref == [] || IsSpace(ref[0]))
    ensures var was, after := SwapImage(text, ref).oldRef, SwapImage(text, ref).text;
      SwapImage(after, was).Swapped? ==> SwapImage(after, was).text != text
  {
    var was, after, from := SwapImage(text, ref).oldRef, SwapImage(text, ref).text, Find(text, 0).value.from;
    FoundIsToken(text, 0);
    if SwapImage(after, was).Swapped? {
      var later := Find(after, 0).value;
      FoundIsToken(after, 0);
      FindsElsewhere(text, ref);
      var again := SwapImage(after, was).text;
      assert |again| == |text| + |ref| - (later.to - later.from);
      if ref != [] {
        assert after[from] == ref[0];
        assert again[from] == after[from] && text[from] == was[0];
      }
    }
  }

  /** For every reference: swapping the old one back restores the text if and only if the new one was a
      reference itself, that is, not empty and without any space. */
  lemma RestoresExactly(text: string, ref: string)
    requires SwapImage(text, ref).Swapped?
    ensures var was, after := SwapImage(text, ref).oldRef, SwapImage(text, ref).text;
      SwapImage(after, was).Swapped? && SwapImage(after, was).text == text <==> IsRef(ref)
  {
    if ref == [] || IsSpace(ref[0]) {
      NotRestored(text, ref);
    } else {
      Restores(text, ref);
    }
  }
}
