/** The next-fit packer that splits ready books into Send-to-Kindle batches. */
module Packing {
  import opened Prelude

  /** `size` is what `stat().st_size` reports. */
  datatype BookFile = BookFile(bookId: nat, size: nat)

  function Bytes(files: seq<BookFile>): nat {
    if files == [] then 0 else files[0].size + Bytes(files[1..])
  }

  function IdsOf(files: seq<BookFile>): (ids: seq<nat>)
    ensures |ids| == |files|
  {
    seq(|files|, i requires 0 <= i < |files| => files[i].bookId)
  }

  function Fits(maxBytes: int): BookFile -> bool {
    (f: BookFile) => f.size <= maxBytes
  }

  function TooBig(maxBytes: int): BookFile -> bool {
    (f: BookFile) => f.size > maxBytes
  }

  /** A batch holds at least one file even when `maxFiles` is zero or negative. */
  predicate WithinLimits(batch: seq<BookFile>, maxBytes: int, maxFiles: int) {
    && batch != []
    && Bytes(batch) <= maxBytes
    && |batch| <= Max(1, maxFiles)
  }

  /** Next-fit closed this batch only because the first file of the next one did not fit. */
  predicate ClosedFor(batch: seq<BookFile>, next: BookFile, maxBytes: int, maxFiles: int) {
    Bytes(batch) + next.size > maxBytes || |batch| >= maxFiles
  }

  /** What next-fit leaves behind: every batch within the limits, and none closed early. */
  predicate NextFit(batches: seq<seq<BookFile>>, maxBytes: int, maxFiles: int)
    decreases |batches|
  {
    if batches == [] then true
    else
      var front, last := batches[..|batches| - 1], batches[|batches| - 1];
      && WithinLimits(last, maxBytes, maxFiles)
      && NextFit(front, maxBytes, maxFiles)
      && (front != [] ==> ClosedFor(front[|front| - 1], last[0], maxBytes, maxFiles))
  }

  lemma {:induction false} BytesAppend(a: seq<BookFile>, b: seq<BookFile>)
    ensures Bytes(a + b) == Bytes(a) + Bytes(b)
  {
    if a == [] {
      assert a + b == b;
    } else {
      assert (a + b)[0] == a[0] && (a + b)[1..] == a[1..] + b;
      BytesAppend(a[1..], b);
    }
  }

  lemma BytesSnoc(a: seq<BookFile>, f: BookFile)
    ensures Bytes(a + [f]) == Bytes(a) + f.size
  {
    BytesAppend(a, [f]);
    assert Bytes([f]) == f.size + Bytes([f][1..]);
  }

  lemma FilterSnoc(keep: BookFile -> bool, a: seq<BookFile>, f: BookFile)
    ensures Filter(keep, a + [f]) == Filter(keep, a) + (if keep(f) then [f] else [])
  {
    FilterAppend(keep, a, [f]);
    assert [f][1..] == [];
  }

  lemma GrowLast(done: seq<seq<BookFile>>, current: seq<BookFile>, f: BookFile, maxBytes: int, maxFiles: int)
    requires current != [] && NextFit(done + [current], maxBytes, maxFiles)
    requires Bytes(current) + f.size <= maxBytes && |current| < maxFiles
    ensures NextFit(done + [current + [f]], maxBytes, maxFiles)
  {
    BytesSnoc(current, f);
    var before, after := done + [current], done + [current + [f]];
    assert before[..|before| - 1] == done && after[..|after| - 1] == done;
  }

  lemma StartNext(done: seq<seq<BookFile>>, f: BookFile, maxBytes: int, maxFiles: int)
    requires NextFit(done, maxBytes, maxFiles) && f.size <= maxBytes
    requires done != [] ==> ClosedFor(done[|done| - 1], f, maxBytes, maxFiles)
    ensures NextFit(done + [[f]], maxBytes, maxFiles)
  {
    assert Bytes([f]) == f.size + Bytes([f][1..]);
    var after := done + [[f]];
    assert after[..|after| - 1] == done;
  }

  lemma {:induction false} EveryBatchWithinLimits(batches: seq<seq<BookFile>>, maxBytes: int, maxFiles: int)
    requires NextFit(batches, maxBytes, maxFiles)
    ensures forall i :: 0 <= i < |batches| ==> WithinLimits(batches[i], maxBytes, maxFiles)
    decreases |batches|
  {
    if batches != [] {
      EveryBatchWithinLimits(batches[..|batches| - 1], maxBytes, maxFiles);
    }
  }

  /** Nothing is lost, reordered or duplicated; every batch is within both limits; and a batch is
      closed only when it has to be. */
  method PackBatches(files: seq<BookFile>, maxBytes: int, maxFiles: int)
    returns (batches: seq<seq<BookFile>>, oversized: seq<BookFile>)
    ensures Flatten(batches) == Filter(Fits(maxBytes), files)
    ensures oversized == Filter(TooBig(maxBytes), files)
    ensures NextFit(batches, maxBytes, maxFiles)
  {
    batches, oversized := [], [];
    var current: seq<BookFile> := [];
    var currentBytes := 0;
    for i := 0 to |files|
      invariant Flatten(batches) + current == Filter(Fits(maxBytes), files[..i])
      invariant oversized == Filter(TooBig(maxBytes), files[..i])
      invariant currentBytes == Bytes(current)
      invariant NextFit(if current == [] then batches else batches + [current], maxBytes, maxFiles)
      invariant current == [] ==> batches == []
    {
      var bf := files[i];
      assert files[..i + 1] == files[..i] + [bf];
      FilterSnoc(Fits(maxBytes), files[..i], bf);
      FilterSnoc(TooBig(maxBytes), files[..i], bf);
      if bf.size > maxBytes {
        oversized := oversized + [bf];
        continue;
      }
      if current != [] && (currentBytes + bf.size > maxBytes || |current| >= maxFiles) {
        FlattenSnoc(batches, current);
        batches := batches + [current];
        current, currentBytes := [], 0;
      }
      if current == [] {
        StartNext(batches, bf, maxBytes, maxFiles);
        assert [] + [bf] == [bf];
      } else {
        GrowLast(batches, current, bf, maxBytes, maxFiles);
      }
      BytesSnoc(current, bf);
      current := current + [bf];
      currentBytes := currentBytes + bf.size;
    }
    assert files[..|files|] == files;
    if current != [] {
      FlattenSnoc(batches, current);
      batches := batches + [current];
    }
  }

  // How far next-fit can be from the best packing.

  function BatchBytes(batches: seq<seq<BookFile>>): nat {
    Bytes(Flatten(batches))
  }

  // Two facts about products; everything below is linear in them.

  lemma MulLe(a: int, b: int, c: int)
    requires a <= b && c >= 0
    ensures a * c <= b * c
  {
  }

  lemma MulAdd(a: int, b: int, c: int)
    ensures (a + b) * c == a * c + b * c
  {
  }

  /** For `k + 1` batches holding `n` files of `S` bytes: two neighbouring batches either fill one by
      count or overflow one by bytes, so `k * F * M <= n * M + 2 * S * F`. */
  lemma {:induction false} NextFitWeight(batches: seq<seq<BookFile>>, maxBytes: int, maxFiles: int)
    requires maxBytes > 0 && maxFiles >= 1 && batches != []
    requires NextFit(batches, maxBytes, maxFiles)
    ensures var k := |batches| - 1;
      k * (maxFiles * maxBytes) + Bytes(batches[k]) * maxFiles
      <= (|Flatten(batches)| - |batches[k]|) * maxBytes + 2 * (BatchBytes(batches) * maxFiles)
    decreases |batches|
  {
    var k := |batches| - 1;
    var front, last := batches[..k], batches[k];
    assert batches == front + [last];
    FlattenSnoc(front, last);
    BytesAppend(Flatten(front), last);
    if front == [] {
      MulLe(0, Bytes(last), maxFiles);
    } else {
      NextFitWeight(front, maxBytes, maxFiles);
      var previous := front[k - 1];
      BytesAppend([last[0]], last[1..]);
      assert [last[0]] + last[1..] == last && Bytes([last[0]]) == last[0].size + Bytes([last[0]][1..]);
      WeightStep(k - 1, |Flatten(front)|, |previous|, BatchBytes(front), Bytes(previous), Bytes(last),
                 maxFiles, maxBytes);
    }
  }

  lemma WeightStep(k: int, n: int, np: nat, s: nat, sp: nat, sl: nat, f: int, m: int)
    requires f >= 1 && m > 0
    requires np >= f || sp + sl > m
    requires k * (f * m) + sp * f <= (n - np) * m + 2 * (s * f)
    ensures (k + 1) * (f * m) + sl * f <= n * m + 2 * ((s + sl) * f)
  {
    assert f * m <= np * m + (sp + sl) * f by {
      if np >= f {
        MulLe(f, np, m);
        MulLe(0, sp + sl, f);
      } else {
        MulLe(m, sp + sl, f);
        MulLe(0, np, m);
      }
    }
    MulAdd(k, 1, f * m);
    MulAdd(n - np, np, m);
    MulAdd(sp, sl, f);
    MulAdd(s, sl, f);
  }

  /** `(k - 1) * F * M <= n * M + 2 * S * F` for `k` batches. */
  lemma NextFitBound(batches: seq<seq<BookFile>>, maxBytes: int, maxFiles: int)
    requires maxBytes > 0 && maxFiles >= 1
    requires NextFit(batches, maxBytes, maxFiles)
    ensures (|batches| - 1) * (maxFiles * maxBytes)
         <= |Flatten(batches)| * maxBytes + 2 * (BatchBytes(batches) * maxFiles)
  {
    if batches == [] {
      MulLe(0, maxFiles, maxBytes);
    } else {
      var last := batches[|batches| - 1];
      NextFitWeight(batches, maxBytes, maxFiles);
      MulLe(|Flatten(batches)| - |last|, |Flatten(batches)|, maxBytes);
      MulLe(0, Bytes(last), maxFiles);
    }
  }

  /** Any other legal packing of the same files, in any order. */
  ghost predicate LegalPacking(other: seq<seq<BookFile>>, files: seq<BookFile>, maxBytes: int, maxFiles: int) {
    && (forall i :: 0 <= i < |other| ==> Bytes(other[i]) <= maxBytes && |other[i]| <= maxFiles)
    && multiset(Flatten(other)) == multiset(files)
  }

  lemma {:induction false} LegalCapacity(other: seq<seq<BookFile>>, maxBytes: int, maxFiles: int)
    requires forall i :: 0 <= i < |other| ==> Bytes(other[i]) <= maxBytes && |other[i]| <= maxFiles
    ensures |Flatten(other)| <= |other| * maxFiles
    ensures BatchBytes(other) <= |other| * maxBytes
  {
    if other != [] {
      var rest := other[1..];
      BytesAppend(other[0], Flatten(rest));
      LegalCapacity(rest, maxBytes, maxFiles);
      MulAdd(|rest|, 1, maxFiles);
      MulAdd(|rest|, 1, maxBytes);
    }
  }

  lemma TakeOut(b: seq<BookFile>, j: nat) returns (rest: seq<BookFile>)
    requires j < |b|
    ensures multiset(b) == multiset(rest) + multiset{b[j]}
    ensures Bytes(b) == Bytes(rest) + b[j].size
  {
    rest := b[..j] + b[j + 1..];
    var tail := [b[j]] + b[j + 1..];
    assert b == b[..j] + tail;
    BytesAppend(b[..j], tail);
    BytesAppend(b[..j], b[j + 1..]);
    assert tail[1..] == b[j + 1..];
  }

  lemma {:induction false} BytesIgnoreOrder(a: seq<BookFile>, b: seq<BookFile>)
    requires multiset(a) == multiset(b)
    ensures |a| == |b| && Bytes(a) == Bytes(b)
    decreases |a|
  {
    assert |multiset(a)| == |a| && |multiset(b)| == |b|;
    if a != [] {
      assert a[0] in multiset(b);
      var j :| 0 <= j < |b| && b[j] == a[0];
      var b' := TakeOut(b, j);
      assert a == [a[0]] + a[1..];
      assert multiset(a[1..]) + multiset{a[0]} == multiset(b') + multiset{a[0]};
      assert multiset(a[1..]) == (multiset(a[1..]) + multiset{a[0]}) - multiset{a[0]};
      assert multiset(b') == (multiset(b') + multiset{a[0]}) - multiset{a[0]};
      BytesIgnoreOrder(a[1..], b');
    }
  }

  /** Next-fit under both limits uses at most three times the batches of the best packing, plus one. */
  lemma AtMostThreeTimesOptimal(
      batches: seq<seq<BookFile>>, other: seq<seq<BookFile>>, maxBytes: int, maxFiles: int)
    requires maxBytes > 0 && maxFiles >= 1
    requires NextFit(batches, maxBytes, maxFiles)
    requires LegalPacking(other, Flatten(batches), maxBytes, maxFiles)
    ensures |batches| <= 3 * |other| + 1
  {
    var n, s, o := |Flatten(batches)|, BatchBytes(batches), |other|;
    NextFitBound(batches, maxBytes, maxFiles);
    LegalCapacity(other, maxBytes, maxFiles);
    BytesIgnoreOrder(Flatten(other), Flatten(batches));
    MulLe(n, o * maxFiles, maxBytes);
    MulLe(s, o * maxBytes, maxFiles);
    Regroup(o, maxFiles, maxBytes);
    MulLe(1, maxFiles, maxBytes);
    Cancel(|batches| - 1, o, maxFiles * maxBytes);
  }

  lemma Regroup(o: int, f: int, m: int)
    ensures (o * f) * m == o * (f * m)
    ensures (o * m) * f == o * (f * m)
  {
  }

  lemma Cancel(x: int, o: int, w: int)
    requires w > 0 && x * w <= o * w + 2 * (o * w)
    ensures x <= 3 * o
  {
    MulAdd(o, 2 * o, w);
    MulAdd(o, o, w);
    if x >= 3 * o + 1 {
      MulLe(3 * o + 1, x, w);
      MulAdd(3 * o, 1, w);
    }
  }
}
