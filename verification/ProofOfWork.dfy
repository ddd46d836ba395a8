/** `solve_anubis`: the byte-and-mask test on a digest, and the search for the least nonce that passes it.
    SHA-256 of the challenge is an arbitrary function of the nonce. */
module ProofOfWork {
  import opened Prelude

  const DIGEST_BYTES := 32

  type Digest = h: seq<bv8> | |h| == DIGEST_BYTES
    witness seq(DIGEST_BYTES, i => 0)

  /** `Crash` is the `IndexError` of looking behind the digest. */
  datatype Check = Pass | Fail | Crash

  /** `(0xFF << (8 - bits)) & 0xFF` */
  function Mask(bits: nat): bv8
    requires 1 <= bits <= 7
  {
    0xFF << (8 - bits)
  }

  predicate AllZero(h: seq<bv8>) {
    forall i :: 0 <= i < |h| ==> h[i] == 0
  }

  /** The test of one digest. Slicing beyond its end is harmless, indexing is not. */
  function CheckDigest(h: Digest, difficulty: nat): Check {
    var bytes, bits := difficulty / 8, difficulty % 8;
    if !AllZero(h[..Min(bytes, DIGEST_BYTES)]) then Fail
    else if bits == 0 then Pass
    else if bytes >= DIGEST_BYTES then Crash
    else if h[bytes] & Mask(bits) == 0 then Pass
    else Fail
  }

  // What the test means.

  function Pow2(n: nat): (p: nat)
    ensures p >= 1
  {
    if n == 0 then 1 else 2 * Pow2(n - 1)
  }

  /** The number a byte string stands for, most significant byte first. */
  function Value(h: seq<bv8>): nat {
    if h == [] then 0 else (h[0] as nat) * Pow2(8 * (|h| - 1)) + Value(h[1..])
  }

  lemma {:induction false} Pow2Adds(a: nat, b: nat)
    ensures Pow2(a + b) == Pow2(a) * Pow2(b)
  {
    if a > 0 {
      Pow2Adds(a - 1, b);
    }
  }

  lemma MaskedBits(b: bv8, bits: nat)
    requires 1 <= bits <= 7
    ensures b & Mask(bits) == 0 <==> b as nat < Pow2(8 - bits)
  {
    if bits == 1 { assert Pow2(7) == 128; }
    else if bits == 2 { assert Pow2(6) == 64; }
    else if bits == 3 { assert Pow2(5) == 32; }
    else if bits == 4 { assert Pow2(4) == 16; }
    else if bits == 5 { assert Pow2(3) == 8; }
    else if bits == 6 { assert Pow2(2) == 4; }
    else { assert Pow2(1) == 2; }
  }

  lemma MulSplit(a: nat, b: nat, p: nat)
    ensures (a + b) * p == a * p + b * p
    ensures b >= 1 ==> b * p >= p
  {
  }

  lemma LeadingDigit(b: nat, c: nat, p: nat, v: nat)
    requires v < p
    ensures b * p + v < c * p <==> b < c
  {
    if b < c {
      MulSplit(b, c - b, p);
    } else {
      MulSplit(c, b - c, p);
    }
  }

  lemma {:induction false} ValueBound(h: seq<bv8>)
    ensures Value(h) < Pow2(8 * |h|)
  {
    if h != [] {
      var p := Pow2(8 * (|h| - 1));
      ValueBound(h[1..]);
      Pow2Adds(8, 8 * (|h| - 1));
      assert Pow2(8) == 256;
      LeadingDigit(h[0] as nat, 256, p, Value(h[1..]));
    }
  }

  /** Read off the front of any byte string. */
  predicate Leading(h: seq<bv8>, bits: nat)
    requires bits <= 8 * |h|
  {
    if bits == 0 then true
    else if bits < 8 then h[0] & Mask(bits) == 0
    else h[0] == 0 && Leading(h[1..], bits - 8)
  }

  lemma {:induction false} Pow2Grows(a: nat, b: nat)
    requires a <= b
    ensures Pow2(a) <= Pow2(b)
    decreases b
  {
    if a < b {
      Pow2Grows(a, b - 1);
    }
  }

  lemma FirstByteDecides(b: nat, v: nat, n: nat, bits: nat)
    requires v < Pow2(8 * n) && bits <= 8
    ensures b * Pow2(8 * n) + v < Pow2(8 * (n + 1) - bits) <==> b < Pow2(8 - bits)
  {
    Pow2Adds(8 - bits, 8 * n);
    LeadingDigit(b, Pow2(8 - bits), Pow2(8 * n), v);
  }

  lemma FirstByteIsZero(b: nat, v: nat, n: nat, bits: nat)
    requires v < Pow2(8 * n) && 8 <= bits <= 8 * (n + 1)
    ensures b * Pow2(8 * n) + v < Pow2(8 * (n + 1) - bits) <==> b == 0 && v < Pow2(8 * (n + 1) - bits)
  {
    Pow2Grows(8 * (n + 1) - bits, 8 * n);
    MulSplit(0, b, Pow2(8 * n));
  }

  lemma {:induction false} LeadingMeansSmall(h: seq<bv8>, bits: nat)
    requires bits <= 8 * |h|
    ensures Leading(h, bits) <==> Value(h) < Pow2(8 * |h| - bits)
  {
    ValueBound(h);
    if bits > 0 {
      var n := |h| - 1;
      ValueBound(h[1..]);
      if bits < 8 {
        MaskedBits(h[0], bits);
        FirstByteDecides(h[0] as nat, Value(h[1..]), n, bits);
      } else {
        LeadingMeansSmall(h[1..], bits - 8);
        FirstByteIsZero(h[0] as nat, Value(h[1..]), n, bits);
      }
    }
  }

  lemma AllZeroCons(b: bv8, rest: seq<bv8>)
    ensures AllZero([b] + rest) <==> b == 0 && AllZero(rest)
  {
    var all := [b] + rest;
    assert forall i :: 0 <= i < |rest| ==> rest[i] == all[i + 1];
    assert all[0] == b;
  }

  /** Whole bytes and the bits that remain. */
  lemma {:induction false} LeadingIsSplit(h: seq<bv8>, bytes: nat, bits: nat)
    requires bits < 8 && 8 * bytes + bits <= 8 * |h|
    ensures bits != 0 ==> bytes < |h|
    ensures Leading(h, 8 * bytes + bits) <==> AllZero(h[..bytes]) && (bits != 0 ==> h[bytes] & Mask(bits) == 0)
  {
    hide Mask;
    if bytes == 0 {
      assert h[..0] == [];
    } else {
      var rest := h[1..];
      LeadingIsSplit(rest, bytes - 1, bits);
      assert 8 * bytes + bits - 8 == 8 * (bytes - 1) + bits;
      assert h[..bytes] == [h[0]] + rest[..bytes - 1];
      AllZeroCons(h[0], rest[..bytes - 1]);
    }
  }

  /** For every difficulty a digest can meet, the test accepts exactly the digests with that many leading
      zero bits, that is, with a value below `2^(256 - difficulty)`. */
  lemma CheckIsExact(h: Digest, difficulty: nat)
    requires 1 <= difficulty <= 256
    ensures CheckDigest(h, difficulty) == if Value(h) < Pow2(256 - difficulty) then Pass else Fail
  {
    LeadingMeansSmall(h, difficulty);
    LeadingIsSplit(h, difficulty / 8, difficulty % 8);
  }

  lemma ZeroSum(b: nat, p: nat, v: nat)
    requires p >= 1
    ensures b * p + v == 0 <==> b == 0 && v == 0
  {
    MulSplit(0, b, p);
  }

  lemma {:induction false} ZeroValue(h: seq<bv8>)
    ensures AllZero(h) <==> Value(h) == 0
  {
    if h != [] {
      ZeroValue(h[1..]);
      ZeroSum(h[0] as nat, Pow2(8 * (|h| - 1)), Value(h[1..]));
      assert h == [h[0]] + h[1..];
    }
  }

  /** Beyond 256 only the zero digest is left: it passes whole bytes and crashes on the rest. */
  lemma CheckBeyondDigest(h: Digest, difficulty: nat)
    requires difficulty > 256
    ensures CheckDigest(h, difficulty)
      == if Value(h) != 0 then Fail else if difficulty % 8 == 0 then Pass else Crash
  {
    ZeroValue(h);
    assert h[..DIGEST_BYTES] == h;
  }

  /** What the test is for, without bytes and masks. */
  ghost predicate Accepted(h: Digest, difficulty: nat)
    requires difficulty >= 1
  {
    if difficulty <= 256 then Value(h) < Pow2(256 - difficulty) else Value(h) == 0
  }

  lemma CheckMeans(h: Digest, difficulty: nat)
    requires difficulty >= 1
    ensures CheckDigest(h, difficulty) == Fail <==> !Accepted(h, difficulty)
    ensures CheckDigest(h, difficulty) == Crash <==> Accepted(h, difficulty) && difficulty > 256 && difficulty % 8 != 0
  {
    hide CheckDigest;
    if difficulty <= 256 {
      CheckIsExact(h, difficulty);
    } else {
      CheckBeyondDigest(h, difficulty);
    }
  }

  datatype Solution = Nonce(n: nat) | IndexError

  /** The least accepted nonce. The search ends only if there is one; a difficulty beyond the digest that is
      not in whole bytes crashes on it. */
  method Solve(sha: nat -> Digest, difficulty: int) returns (r: Solution)
    requires difficulty > 0 ==> exists n: nat :: CheckDigest(sha(n), difficulty) != Fail
    ensures difficulty <= 0 ==> r == Nonce(0)
    ensures r.IndexError? <==> difficulty > 256 && difficulty % 8 != 0
    ensures difficulty >= 1 && r.Nonce? ==> Accepted(sha(r.n), difficulty)
    ensures difficulty >= 1 && r.Nonce? ==> forall m: nat :: m < r.n ==> !Accepted(sha(m), difficulty)
  {
    hide CheckDigest, Accepted;
    if difficulty <= 0 {
      return Nonce(0);
    }
    ghost var stop: nat :| CheckDigest(sha(stop), difficulty) != Fail;
    var nonce := 0;
    while CheckDigest(sha(nonce), difficulty) == Fail
      invariant nonce <= stop
      invariant forall m: nat :: m < nonce ==> !Accepted(sha(m), difficulty)
      decreases stop - nonce
    {
      CheckMeans(sha(nonce), difficulty);
      nonce := nonce + 1;
    }
    CheckMeans(sha(nonce), difficulty);
    r := if CheckDigest(sha(nonce), difficulty) == Pass then Nonce(nonce) else IndexError;
  }
}
