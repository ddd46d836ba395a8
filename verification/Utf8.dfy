/** UTF-8 (RFC 3629, section 3), and the byte-level truncation that never splits a code point. */
module Utf8 {
  import opened Prelude

  type Byte = b: int | 0 <= b < 256

  /** Top two bits `10`: `(b & 0xC0) == 0x80`. */
  predicate IsContinuation(b: Byte) {
    b / 64 == 2
  }

  predicate IsAscii(c: char) {
    c as int < 0x80
  }

  /** The table of RFC 3629, section 3. */
  function EncodeChar(c: char): (bs: seq<Byte>)
    ensures 1 <= |bs| <= 4
    ensures |bs| == 1 <==> IsAscii(c)
    ensures !IsContinuation(bs[0])
    ensures |bs| > 1 ==> bs[0] >= 0xC0
    ensures forall i :: 1 <= i < |bs| ==> IsContinuation(bs[i])
  {
    var v := c as int;
    if v < 0x80 then [v]
    else if v < 0x800 then [0xC0 + v / 0x40, 0x80 + v % 0x40]
    else if v < 0x10000 then [0xE0 + v / 0x1000, 0x80 + v / 0x40 % 0x40, 0x80 + v % 0x40]
    else [0xF0 + v / 0x40000, 0x80 + v / 0x1000 % 0x40, 0x80 + v / 0x40 % 0x40, 0x80 + v % 0x40]
  }

  function Encode(s: string): seq<Byte> {
    if s == [] then [] else EncodeChar(s[0]) + Encode(s[1..])
  }

  predicate IsScalar(v: int) {
    0 <= v < 0xD800 || 0xE000 <= v < 0x110000
  }

  /** The code point a well-formed sequence at the front of `bs` stands for, and its length. */
  function DecodeFirst(bs: seq<Byte>): Option<(char, nat)>
    requires bs != []
  {
    var b: int := bs[0];
    if b < 0x80 then Some((bs[0] as char, 1))
    else if 0xC0 <= b < 0xE0 && |bs| >= 2 && IsContinuation(bs[1]) then
      var v := (b - 0xC0) * 0x40 + (bs[1] as int - 0x80);
      if 0x80 <= v then Some((v as char, 2)) else None
    else if 0xE0 <= b < 0xF0 && |bs| >= 3 && IsContinuation(bs[1]) && IsContinuation(bs[2]) then
      var v := (b - 0xE0) * 0x1000 + (bs[1] as int - 0x80) * 0x40 + (bs[2] as int - 0x80);
      if 0x800 <= v && IsScalar(v) then Some((v as char, 3)) else None
    else if 0xF0 <= b < 0xF8 && |bs| >= 4
            && IsContinuation(bs[1]) && IsContinuation(bs[2]) && IsContinuation(bs[3]) then
      var v := (b - 0xF0) * 0x40000 + (bs[1] as int - 0x80) * 0x1000
               + (bs[2] as int - 0x80) * 0x40 + (bs[3] as int - 0x80);
      if 0x10000 <= v && IsScalar(v) then Some((v as char, 4)) else None
    else None
  }

  /** `decode("utf-8", errors="ignore")`: bytes that start no well-formed sequence are dropped. */
  function DecodeIgnore(bs: seq<Byte>): string
    decreases |bs|
  {
    if bs == [] then []
    else
      match DecodeFirst(bs)
      case Some((c, n)) => if n <= |bs| then [c] + DecodeIgnore(bs[n..]) else []
      case None => DecodeIgnore(bs[1..])
  }

  lemma Digits(v: nat)
    ensures v == v / 0x40 * 0x40 + v % 0x40
    ensures v == v / 0x1000 * 0x1000 + v / 0x40 % 0x40 * 0x40 + v % 0x40
    ensures v == v / 0x40000 * 0x40000 + v / 0x1000 % 0x40 * 0x1000 + v / 0x40 % 0x40 * 0x40 + v % 0x40
  {
    assert v / 0x1000 == v / 0x40 / 0x40;
    assert v / 0x40000 == v / 0x1000 / 0x40;
  }

  lemma DecodeEncodedChar(c: char, rest: seq<Byte>)
    ensures DecodeFirst(EncodeChar(c) + rest) == Some((c, |EncodeChar(c)|))
  {
    var v := c as int;
    Digits(v);
    assert IsScalar(v);
    if v < 0x80 {
    } else if v < 0x800 {
      DecodeTwo(v, EncodeChar(c) + rest);
    } else if v < 0x10000 {
      DecodeThree(v, EncodeChar(c) + rest);
    } else {
      DecodeFour(v, EncodeChar(c) + rest);
    }
  }

  lemma DecodeTwo(v: nat, bs: seq<Byte>)
    requires 0x80 <= v < 0x800 && |bs| >= 2
    requires bs[0] == 0xC0 + v / 0x40 && bs[1] == 0x80 + v % 0x40
    ensures DecodeFirst(bs) == Some((v as char, 2))
  {
    assert IsContinuation(bs[1]);
  }

  lemma DecodeThree(v: nat, bs: seq<Byte>)
    requires 0x800 <= v < 0x10000 && IsScalar(v) && |bs| >= 3
    requires bs[0] == 0xE0 + v / 0x1000 && bs[1] == 0x80 + v / 0x40 % 0x40 && bs[2] == 0x80 + v % 0x40
    ensures DecodeFirst(bs) == Some((v as char, 3))
  {
    Digits(v);
    assert IsContinuation(bs[1]) && IsContinuation(bs[2]);
  }

  lemma DecodeFour(v: nat, bs: seq<Byte>)
    requires 0x10000 <= v < 0x110000 && |bs| >= 4
    requires bs[0] == 0xF0 + v / 0x40000 && bs[1] == 0x80 + v / 0x1000 % 0x40
    requires bs[2] == 0x80 + v / 0x40 % 0x40 && bs[3] == 0x80 + v % 0x40
    ensures DecodeFirst(bs) == Some((v as char, 4))
  {
    Digits(v);
    assert IsContinuation(bs[1]) && IsContinuation(bs[2]) && IsContinuation(bs[3]);
  }

  /** What was encoded comes back, up to a lone lead byte at the end, which is ignored. */
  lemma {:induction false} DecodeEncoded(s: string, tail: seq<Byte>)
    requires tail == [] || (|tail| == 1 && tail[0] >= 0xC0)
    ensures DecodeIgnore(Encode(s) + tail) == s
  {
    if s == [] {
      assert Encode(s) + tail == tail;
      if tail != [] {
        assert DecodeFirst(tail) == None;
        assert tail[1..] == [];
      }
    } else {
      var front, rest := EncodeChar(s[0]), Encode(s[1..]) + tail;
      assert Encode(s) + tail == front + rest;
      DecodeEncodedChar(s[0], rest);
      assert (front + rest)[|front|..] == rest;
      DecodeEncoded(s[1..], tail);
    }
  }

  lemma {:induction false} EncodeAppend(a: string, b: string)
    ensures Encode(a + b) == Encode(a) + Encode(b)
  {
    if a == [] {
      assert a + b == b;
    } else {
      assert (a + b)[0] == a[0] && (a + b)[1..] == a[1..] + b;
      EncodeAppend(a[1..], b);
    }
  }

  lemma EncodeSnoc(s: string, c: char)
    ensures Encode(s + [c]) == Encode(s) + EncodeChar(c)
  {
    EncodeAppend(s, [c]);
    assert [c][1..] == [];
    assert Encode([c]) == EncodeChar(c) + Encode([c][1..]);
  }

  lemma {:induction false} EncodeLength(s: string)
    ensures |Encode(s)| >= |s|
    ensures (forall i :: 0 <= i < |s| ==> IsAscii(s[i])) ==> |Encode(s)| == |s|
  {
    if s != [] {
      EncodeLength(s[1..]);
    }
  }

  /** How many leading code points fit into `k` bytes. */
  function FitCount(s: string, k: nat): (n: nat)
    ensures n <= |s|
  {
    if s == [] || |EncodeChar(s[0])| > k then 0 else 1 + FitCount(s[1..], k - |EncodeChar(s[0])|)
  }

  /** The first `k` bytes: all the code points that fit, then the start of the next one. */
  lemma {:induction false} CutShape(s: string, k: nat)
    requires k <= |Encode(s)|
    ensures var n := FitCount(s, k);
      && |Encode(s[..n])| <= k
      && (n == |s| ==> k == |Encode(s)|)
      && (n < |s| ==> k < |Encode(s[..n])| + |EncodeChar(s[n])|
                      && Encode(s)[..k] == Encode(s[..n]) + EncodeChar(s[n])[..k - |Encode(s[..n])|])
      && (n == |s| ==> Encode(s)[..k] == Encode(s[..n]))
  {
    hide EncodeChar;
    var n := FitCount(s, k);
    if s != [] {
      var first := EncodeChar(s[0]);
      if |first| > k {
        assert s[..0] == [];
        assert Encode(s)[..k] == first[..k];
      } else {
        CutShape(s[1..], k - |first|);
        assert s[..n][1..] == s[1..][..n - 1];
        assert Encode(s[..n]) == first + Encode(s[1..][..n - 1]);
        assert Encode(s)[..k] == first + Encode(s[1..])[..k - |first|];
      }
    } else {
      assert s[..n] == s;
    }
  }

  function TrimTail(bs: seq<Byte>): seq<Byte> {
    if bs != [] && IsContinuation(bs[|bs| - 1]) then TrimTail(bs[..|bs| - 1]) else bs
  }

  lemma {:induction false} TrimContinuations(front: seq<Byte>, lead: Byte, rest: seq<Byte>)
    requires !IsContinuation(lead)
    requires forall i :: 0 <= i < |rest| ==> IsContinuation(rest[i])
    ensures TrimTail(front + [lead] + rest) == front + [lead]
    decreases |rest|
  {
    var bs := front + [lead] + rest;
    if rest == [] {
      assert bs == front + [lead];
    } else {
      var shorter := rest[..|rest| - 1];
      assert bs[|bs| - 1] == rest[|rest| - 1];
      assert bs[..|bs| - 1] == front + [lead] + shorter;
      TrimContinuations(front, lead, shorter);
    }
  }

  /** A multi-byte code point that ends exactly at the cut loses its continuation bytes too, and then
      its lead byte is ignored. */
  function Kept(s: string, k: nat): (n: nat)
    ensures n <= |s|
  {
    var n := FitCount(s, k);
    if n > 0 && !IsAscii(s[n - 1]) && |Encode(s[..n])| == k then n - 1 else n
  }

  lemma TrimMidChar(front: string, c: char, left: nat)
    requires 0 < left <= |EncodeChar(c)| && (left < |EncodeChar(c)| || !IsAscii(c))
    ensures DecodeIgnore(TrimTail(Encode(front) + EncodeChar(c)[..left])) == front
  {
    var p := EncodeChar(c)[..left];
    assert Encode(front) + p == Encode(front) + [p[0]] + p[1..];
    TrimContinuations(Encode(front), p[0], p[1..]);
    DecodeEncoded(front, [p[0]]);
  }

  lemma TrimAfterAscii(front: string, c: char)
    requires IsAscii(c)
    ensures DecodeIgnore(TrimTail(Encode(front + [c]))) == front + [c]
  {
    EncodeSnoc(front, c);
    var bs := Encode(front + [c]);
    assert bs[|bs| - 1] == c as int;
    assert bs + [] == bs;
    DecodeEncoded(front + [c], []);
  }

  /** Truncating the bytes, trimming and decoding leaves a prefix of the code points. */
  lemma TruncationKeepsPrefix(s: string, k: nat)
    requires k <= |Encode(s)|
    ensures DecodeIgnore(TrimTail(Encode(s)[..k])) == s[..Kept(s, k)]
  {
    hide EncodeChar;
    var n := FitCount(s, k);
    CutShape(s, k);
    var left := k - |Encode(s[..n])|;
    if left > 0 {
      TrimMidChar(s[..n], s[n], left);
    } else if n == 0 {
      assert Encode(s)[..k] == [];
    } else {
      var c, front := s[n - 1], s[..n - 1];
      assert s[..n] == front + [c];
      EncodeSnoc(front, c);
      assert Encode(s)[..k] == Encode(front + [c]);
      if IsAscii(c) {
        TrimAfterAscii(front, c);
      } else {
        assert EncodeChar(c)[..|EncodeChar(c)|] == EncodeChar(c);
        TrimMidChar(front, c, |EncodeChar(c)|);
      }
    }
  }

  /** No prefix of more than `n` code points fits into `k` bytes. */
  ghost predicate FitsAtMost(s: string, k: nat, n: nat) {
    forall m :: n < m <= |s| ==> |Encode(s[..m])| > k
  }

  lemma FitCountIsLongest(s: string, k: nat)
    requires k <= |Encode(s)|
    ensures FitsAtMost(s, k, FitCount(s, k))
  {
    hide EncodeChar;
    var n := FitCount(s, k);
    CutShape(s, k);
    forall m | n < m <= |s|
      ensures |Encode(s[..m])| > k
    {
      assert s[..m] == s[..n] + [s[n]] + s[n + 1..m];
      EncodeSnoc(s[..n], s[n]);
      EncodeAppend(s[..n] + [s[n]], s[n + 1..m]);
    }
  }

  /** The kept prefix fits, and is at most one code point shorter than the longest prefix that fits. */
  lemma KeptIsNearlyLongest(s: string, k: nat)
    requires k <= |Encode(s)|
    ensures |Encode(s[..Kept(s, k)])| <= k
    ensures FitsAtMost(s, k, Kept(s, k) + 1)
  {
    hide EncodeChar;
    var n := FitCount(s, k);
    CutShape(s, k);
    FitCountIsLongest(s, k);
    if Kept(s, k) < n {
      assert s[..n] == s[..n - 1] + [s[n - 1]];
      EncodeSnoc(s[..n - 1], s[n - 1]);
    }
  }
}
