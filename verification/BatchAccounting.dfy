/** Book by book, what one `DeliverBatch` call did: nobody is dropped, and nobody is sent twice except
    for the one reason the fallback has. */
module BatchAccounting {
  import opened Prelude
  import opened Packing
  import opened Quota
  import opened Router
  import opened BatchDelivery

  lemma IdsAppend(a: seq<BookFile>, b: seq<BookFile>)
    ensures IdsOf(a + b) == IdsOf(a) + IdsOf(b)
  {
  }

  /** For pairwise different elements a count is membership. */
  lemma {:induction false} DistinctCount(s: seq<nat>, x: nat)
    requires NoDuplicates(s)
    ensures Count(s, x) == if x in s then 1 else 0
  {
    if s != [] {
      var n := |s| - 1;
      assert s == s[..n] + [s[n]];
      DistinctCount(s[..n], x);
    }
  }

  lemma IdsFront(files: seq<BookFile>)
    requires files != []
    ensures var n := |files| - 1; IdsOf(files) == IdsOf(files[..n]) + [files[n].bookId]
  {
  }

  lemma OkIdsFront(files: seq<BookFile>, results: seq<DeliveryResult>, x: nat)
    requires |files| == |results| > 0
    ensures var n := |files| - 1;
      Count(OkIds(files, results), x)
      == Count(OkIds(files[..n], results[..n]), x) + if results[n].ok && files[n].bookId == x then 1 else 0
  {
    var n := |files| - 1;
    var front := OkIds(files[..n], results[..n]);
    if results[n].ok {
      CountSnoc(front, files[n].bookId, x);
    } else {
      assert front + [] == front;
    }
  }

  lemma {:induction false} OkIdsAbsent(files: seq<BookFile>, results: seq<DeliveryResult>, x: nat)
    requires |files| == |results| && x !in IdsOf(files)
    ensures Count(OkIds(files, results), x) == 0
  {
    if files != [] {
      IdsFront(files);
      OkIdsFront(files, results, x);
      OkIdsAbsent(files[..|files| - 1], results[..|files| - 1], x);
    }
  }

  lemma {:induction false} OkIdsPresent(files: seq<BookFile>, results: seq<DeliveryResult>, k: nat)
    requires |files| == |results| && NoDuplicates(IdsOf(files)) && k < |files|
    ensures Count(OkIds(files, results), files[k].bookId) == if results[k].ok then 1 else 0
  {
    hide OkIds;
    var n, ids := |files| - 1, IdsOf(files);
    IdsFront(files);
    OkIdsFront(files, results, files[k].bookId);
    assert IdsOf(files[..n]) == ids[..n];
    if k < n {
      assert ids[k] != ids[n];
      OkIdsPresent(files[..n], results[..n], k);
    } else {
      assert ids[n] == files[n].bookId && forall i :: 0 <= i < n ==> ids[..n][i] == ids[i];
      OkIdsAbsent(files[..n], results[..n], files[n].bookId);
    }
  }

  lemma OkIdsCount(files: seq<BookFile>, results: seq<DeliveryResult>, x: nat)
    requires |files| == |results| && NoDuplicates(IdsOf(files))
    ensures x !in IdsOf(files) ==> Count(OkIds(files, results), x) == 0
    ensures forall k :: 0 <= k < |files| && files[k].bookId == x ==>
      Count(OkIds(files, results), x) == if results[k].ok then 1 else 0
  {
    if x !in IdsOf(files) {
      OkIdsAbsent(files, results, x);
    }
    forall k | 0 <= k < |files| && files[k].bookId == x
      ensures Count(OkIds(files, results), x) == if results[k].ok then 1 else 0
    {
      OkIdsPresent(files, results, k);
    }
  }

  lemma SentCount(files: seq<BookFile>, sent: nat, x: nat)
    requires sent <= |files| && NoDuplicates(IdsOf(files))
    ensures x !in IdsOf(files) ==> Count(IdsOf(files[..sent]), x) == 0
    ensures forall k :: 0 <= k < |files| && files[k].bookId == x ==>
      Count(IdsOf(files[..sent]), x) == if k < sent then 1 else 0
  {
    var ids := IdsOf(files);
    assert IdsOf(files[..sent]) == ids[..sent];
    DistinctCount(ids[..sent], x);
    forall k | 0 <= k < |files| && files[k].bookId == x
      ensures x in ids[..sent] <==> k < sent
    {
      assert ids[k] == x;
      if k < sent {
        assert ids[..sent][k] == x;
      }
    }
    assert x in ids[..sent] ==> x in ids;
  }

  lemma AllCount(files: seq<BookFile>, x: nat)
    requires NoDuplicates(IdsOf(files))
    ensures x !in IdsOf(files) ==> Count(IdsOf(files), x) == 0
    ensures forall k :: 0 <= k < |files| && files[k].bookId == x ==> Count(IdsOf(files), x) == 1
  {
    SentCount(files, |files|, x);
    assert files[..|files|] == files;
  }

  lemma AssignedLookup(m: map<nat, DeliveryResult>, files: seq<BookFile>, results: seq<DeliveryResult>, x: nat)
    requires |files| == |results| && NoDuplicates(IdsOf(files))
    ensures var a := Assigned(m, IdsOf(files), results);
      && (x !in IdsOf(files) ==> (x in a <==> x in m) && (x in m ==> a[x] == m[x]))
      && (forall k :: 0 <= k < |files| && files[k].bookId == x ==> x in a && a[x] == results[k])
  {
    if files != [] {
      var n := |files| - 1;
      var ids := IdsOf(files);
      assert IdsOf(files[..n]) == ids[..n] && ids[n] == files[n].bookId;
      AssignedLookup(m, files[..n], results[..n], x);
      assert forall k :: 0 <= k < n ==> ids[k] == files[k].bookId && files[..n][k] == files[k];
      assert x in ids[..n] ==> x in ids;
    }
  }

  function AllFiles(history: seq<Record>): seq<BookFile> {
    Flatten(BatchesOf(history))
  }

  /** The ids of the last batch and of the earlier ones do not meet. */
  lemma LastIsApart(history: seq<Record>)
    requires history != [] && NoDuplicates(IdsOf(AllFiles(history)))
    ensures var n := |history| - 1;
      && AllFiles(history) == AllFiles(history[..n]) + history[n].files
      && NoDuplicates(IdsOf(AllFiles(history[..n]))) && NoDuplicates(IdsOf(history[n].files))
      && (forall x :: x in IdsOf(history[n].files) ==> x !in IdsOf(AllFiles(history[..n])))
      && (forall x :: x in IdsOf(AllFiles(history)) <==>
            x in IdsOf(AllFiles(history[..n])) || x in IdsOf(history[n].files))
  {
    var n := |history| - 1;
    assert BatchesOf(history) == BatchesOf(history[..n]) + [history[n].files];
    FlattenSnoc(BatchesOf(history[..n]), history[n].files);
    IdsAppend(AllFiles(history[..n]), history[n].files);
    var a, b := IdsOf(AllFiles(history[..n])), IdsOf(history[n].files);
    assert forall i :: 0 <= i < |a| ==> (a + b)[i] == a[i];
    assert forall i :: 0 <= i < |b| ==> (a + b)[|a| + i] == b[i];
  }

  lemma HistoryCounts(history: seq<Record>, x: nat)
    requires history != []
    ensures var n := |history| - 1;
      var last := history[n];
      && Count(StkIds(history), x) == Count(StkIds(history[..n]), x) + Count(IdsOf(last.files[..last.sent]), x)
      && Count(SmtpIds(history), x)
         == Count(SmtpIds(history[..n]), x) + (if last.Whole() then 0 else Count(OkIds(last.files, last.results), x))
      && Count(RecordedIds(history), x)
         == Count(RecordedIds(history[..n]), x) + if last.Whole() then Count(IdsOf(last.files), x) else 0
  {
    hide Count, OkIds;
    var n := |history| - 1;
    var last := history[n];
    CountAppend(StkIds(history[..n]), IdsOf(last.files[..last.sent]), x);
    if last.Whole() {
      assert SmtpIds(history[..n]) + [] == SmtpIds(history[..n]);
      CountAppend(RecordedIds(history[..n]), IdsOf(last.files), x);
    } else {
      assert RecordedIds(history[..n]) + [] == RecordedIds(history[..n]);
      CountAppend(SmtpIds(history[..n]), OkIds(last.files, last.results), x);
    }
  }

  lemma NothingCounted(x: nat)
    ensures Count(StkIds([]), x) == 0 && Count(SmtpIds([]), x) == 0 && Count(RecordedIds([]), x) == 0
  {
  }

  lemma {:induction false} Absent(oversized: seq<BookFile>, history: seq<Record>, x: nat)
    requires NoDuplicates(IdsOf(AllFiles(history))) && x !in IdsOf(AllFiles(history))
    ensures Count(StkIds(history), x) == 0 && Count(SmtpIds(history), x) == 0 && Count(RecordedIds(history), x) == 0
    ensures x in ResultMap(oversized, history) <==> x in ResultMap(oversized, [])
    ensures x in ResultMap(oversized, []) ==> ResultMap(oversized, history)[x] == ResultMap(oversized, [])[x]
    decreases |history|
  {
    hide Count, StkIds, SmtpIds, RecordedIds, OkIds, Assigned;
    if history == [] {
      NothingCounted(x);
    } else {
      HistoryCounts(history, x);
      var n := |history| - 1;
      var last := history[n];
      LastIsApart(history);
      Absent(oversized, history[..n], x);
      SentCount(last.files, last.sent, x);
      AllCount(last.files, x);
      OkIdsCount(last.files, last.results, x);
      AssignedLookup(ResultMap(oversized, history[..n]), last.files, last.results, x);
    }
  }

  /** The book at position `k` of batch `j`. */
  lemma {:induction false} Present(oversized: seq<BookFile>, history: seq<Record>, j: nat, k: nat)
    requires NoDuplicates(IdsOf(AllFiles(history)))
    requires j < |history| && k < |history[j].files|
    ensures var r, x := history[j], history[j].files[k].bookId;
      && x in IdsOf(AllFiles(history))
      && Count(StkIds(history), x) == (if k < r.sent then 1 else 0)
      && Count(SmtpIds(history), x) == (if !r.Whole() && r.results[k].ok then 1 else 0)
      && Count(RecordedIds(history), x) == (if r.Whole() then 1 else 0)
      && x in ResultMap(oversized, history) && ResultMap(oversized, history)[x] == r.results[k]
    decreases |history|
  {
    hide Count, StkIds, SmtpIds, RecordedIds, OkIds, Assigned;
    HistoryCounts(history, history[j].files[k].bookId);
    var n := |history| - 1;
    var last, x := history[n], history[j].files[k].bookId;
    LastIsApart(history);
    SentCount(last.files, last.sent, x);
    AllCount(last.files, x);
    OkIdsCount(last.files, last.results, x);
    AssignedLookup(ResultMap(oversized, history[..n]), last.files, last.results, x);
    if j == n {
      assert IdsOf(last.files)[k] == x;
      Absent(oversized, history[..n], x);
    } else {
      assert history[..n][j] == history[j];
      Present(oversized, history[..n], j, k);
    }
  }

  lemma {:induction false} Locate(history: seq<Record>, f: BookFile) returns (j: nat, k: nat)
    requires f in AllFiles(history)
    ensures j < |history| && k < |history[j].files| && history[j].files[k] == f
    decreases |history|
  {
    var n := |history| - 1;
    assert BatchesOf(history) == BatchesOf(history[..n]) + [history[n].files];
    FlattenSnoc(BatchesOf(history[..n]), history[n].files);
    if f in history[n].files {
      j := n;
      k :| 0 <= k < |history[n].files| && history[n].files[k] == f;
    } else {
      j, k := Locate(history[..n], f);
    }
  }

  lemma {:induction false} FilterKeepsDistinct(keep: BookFile -> bool, files: seq<BookFile>)
    requires NoDuplicates(IdsOf(files))
    ensures NoDuplicates(IdsOf(Filter(keep, files)))
    ensures forall f :: f in Filter(keep, files) <==> f in files && keep(f)
    ensures forall x :: x in IdsOf(Filter(keep, files)) ==> x in IdsOf(files)
    decreases |files|
  {
    if files != [] {
      var ids := IdsOf(files);
      assert IdsOf(files[1..]) == ids[1..] && ids[0] == files[0].bookId;
      FilterKeepsDistinct(keep, files[1..]);
      assert files == [files[0]] + files[1..] && ids == [ids[0]] + ids[1..];
      var kept := Filter(keep, files[1..]);
      if keep(files[0]) {
        IdsAppend([files[0]], kept);
        assert IdsOf([files[0]]) == [ids[0]];
        forall i, m | 0 <= i < m < |kept| + 1
          ensures ([ids[0]] + IdsOf(kept))[i] != ([ids[0]] + IdsOf(kept))[m]
        {
          assert IdsOf(kept)[m - 1] in ids[1..];
        }
      }
    }
  }

  lemma SameIdSameFile(files: seq<BookFile>, i: nat, f: BookFile)
    requires NoDuplicates(IdsOf(files)) && i < |files| && f in files && f.bookId == files[i].bookId
    ensures f == files[i]
  {
    var j :| 0 <= j < |files| && files[j] == f;
    assert IdsOf(files)[j] == IdsOf(files)[i];
  }

  lemma RefusedEverywhere(oversized: seq<BookFile>, x: nat)
    requires NoDuplicates(IdsOf(oversized)) && x in IdsOf(oversized)
    ensures x in ResultMap(oversized, []) && ResultMap(oversized, [])[x] == DeliveryResult(false, Stk, 0)
  {
    AssignedLookup(map[], oversized, Refused(|oversized|), x);
    var k :| 0 <= k < |oversized| && IdsOf(oversized)[k] == x;
    assert oversized[k].bookId == x;
  }

  /** For pairwise different books, and for every input position:
      a book too big for a batch is refused and sent nowhere; any other book is in exactly one batch,
      each channel accepts it at most once, a result that says ok names a channel that accepted it, a
      result that says failed was not accepted by SMTP, and a book is accepted twice exactly when the session
      broke later in its own batch and SMTP then took it as well. */
  lemma EachBookAccounted(files: seq<BookFile>, cfg: StkConfig, history: seq<Record>, results: seq<DeliveryResult>,
                          i: nat)
    requires NoDuplicates(IdsOf(files)) && ReportedBy(files, cfg, history, results) && i < |files|
    ensures var byStk := Count(StkIds(history), files[i].bookId);
      var bySmtp := Count(SmtpIds(history), files[i].bookId);
      if files[i].size > cfg.maxBatchBytes then
        byStk == 0 && bySmtp == 0 && results[i] == DeliveryResult(false, Stk, 0)
      else
        && byStk <= 1 && bySmtp <= 1
        && (results[i].ok ==> if results[i].means == Stk then byStk == 1 && bySmtp == 0 else bySmtp == 1)
        && (!results[i].ok ==> bySmtp == 0)
        && exists j, k ::
             && 0 <= j < |history| && 0 <= k < |history[j].files| && history[j].files[k] == files[i]
             && (byStk == 1 <==> k < history[j].sent)
             && (byStk + bySmtp == 2 <==> k < history[j].sent < |history[j].files| && results[i].ok)
  {
    var maxBytes, f := cfg.maxBatchBytes, files[i];
    var oversized := Filter(TooBig(maxBytes), files);
    FilterKeepsDistinct(Fits(maxBytes), files);
    FilterKeepsDistinct(TooBig(maxBytes), files);
    assert f in files;
    if f.size > maxBytes {
      if f.bookId in IdsOf(AllFiles(history)) {
        var g :| g in AllFiles(history) && g.bookId == f.bookId;
        SameIdSameFile(files, i, g);
        assert false;
      }
      Absent(oversized, history, f.bookId);
      assert f in oversized;
      var p :| 0 <= p < |oversized| && oversized[p] == f;
      assert IdsOf(oversized)[p] == f.bookId;
      RefusedEverywhere(oversized, f.bookId);
    } else {
      var j, k := Locate(history, f);
      Present(oversized, history, j, k);
      assert history[j].files[k] == f;
    }
  }

  // The audit log, book by book.

  lemma BatchCount(r: Record, e: Entry)
    requires e.kind in {SendStk, SendSmtp}
    ensures Count(BatchEntries(r), e)
         == if r.Whole() && e.kind == SendStk && e.book.Some? then Count(IdsOf(r.files), e.book.value) else 0
  {
    hide Count, ForIds;
    ForIdsCount(SendStk, IdsOf(r.files), e);
    ForIdsCount(SendStkFailed, IdsOf(r.files), e);
    CountAppend([Entry(SendStkBatch, None)], ForEach(SendStk, r.files), e);
    CountSnoc([], Entry(SendStkBatch, None), e);
    NoneCounted(e);
    assert [] + [Entry(SendStkBatch, None)] == [Entry(SendStkBatch, None)];
  }

  lemma NoneCounted<T>(x: T)
    ensures Count([], x) == 0
  {
  }

  lemma {:induction false} HistoryEntriesCount(history: seq<Record>, e: Entry)
    requires e.kind in {SendStk, SendSmtp}
    ensures Count(HistoryEntries(history), e)
         == if e.kind == SendStk && e.book.Some? then Count(RecordedIds(history), e.book.value) else 0
    decreases |history|
  {
    hide Count, BatchEntries;
    if history == [] {
      NoneCounted(e);
      if e.book.Some? {
        NoneCounted(e.book.value);
      }
    } else {
      var n := |history| - 1;
      HistoryEntriesCount(history[..n], e);
      BatchCount(history[n], e);
      CountAppend(HistoryEntries(history[..n]), BatchEntries(history[n]), e);
      if e.book.Some? {
        HistoryCounts(history, e.book.value);
      }
    }
  }

  /** In the log of a call, the sends of one book are those of the whole batches. */
  lemma CallCount(oversized: seq<BookFile>, history: seq<Record>, e: Entry)
    requires e.kind in {SendStk, SendSmtp}
    ensures Count(CallEntries(oversized, history), e)
         == if e.kind == SendStk && e.book.Some? then Count(RecordedIds(history), e.book.value) else 0
  {
    hide Count, ForIds, HistoryEntries, RecordedIds;
    ForIdsCount(SendStkFailed, IdsOf(oversized), e);
    HistoryEntriesCount(history, e);
    CountAppend(ForEach(SendStkFailed, oversized), HistoryEntries(history), e);
  }

  /** One send event for each book reported as sent by Send-to-Kindle, none for any other, and no SMTP send. */
  ghost predicate StkTold(entries: seq<Entry>, files: seq<BookFile>, results: seq<DeliveryResult>)
    requires |files| == |results|
  {
    && (forall k :: 0 <= k < |files| ==>
          Count(entries, Entry(SendStk, Some(files[k].bookId)))
          == if results[k].ok && results[k].means == Stk then 1 else 0)
    && (forall book: Option<nat> :: book.None? || book.value !in IdsOf(files) ==>
          Count(entries, Entry(SendStk, book)) == 0)
    && (forall book: Option<nat> :: Count(entries, Entry(SendSmtp, book)) == 0)
  }

  lemma RecordedByResult(files: seq<BookFile>, cfg: StkConfig, history: seq<Record>, results: seq<DeliveryResult>,
                         i: nat)
    requires NoDuplicates(IdsOf(files)) && ReportedBy(files, cfg, history, results) && i < |files|
    ensures Count(RecordedIds(history), files[i].bookId)
         == if results[i].ok && results[i].means == Stk then 1 else 0
  {
    hide Count, RecordedIds;
    var maxBytes, f := cfg.maxBatchBytes, files[i];
    var oversized := Filter(TooBig(maxBytes), files);
    FilterKeepsDistinct(Fits(maxBytes), files);
    EachBookAccounted(files, cfg, history, results, i);
    assert f in files;
    if f.size > maxBytes {
      if f.bookId in IdsOf(AllFiles(history)) {
        var g :| g in AllFiles(history) && g.bookId == f.bookId;
        SameIdSameFile(files, i, g);
        assert false;
      }
      Absent(oversized, history, f.bookId);
    } else {
      var j, k := Locate(history, f);
      Present(oversized, history, j, k);
    }
  }

  /** What a batch call records agrees with what it reports. */
  lemma SendsAreRecorded(files: seq<BookFile>, cfg: StkConfig, history: seq<Record>, results: seq<DeliveryResult>)
    requires NoDuplicates(IdsOf(files)) && ReportedBy(files, cfg, history, results)
    ensures StkTold(CallEntries(Filter(TooBig(cfg.maxBatchBytes), files), history), files, results)
  {
    hide Count, RecordedIds, CallEntries, NextFit;
    var oversized := Filter(TooBig(cfg.maxBatchBytes), files);
    var entries := CallEntries(oversized, history);
    forall k | 0 <= k < |files|
      ensures Count(entries, Entry(SendStk, Some(files[k].bookId)))
           == if results[k].ok && results[k].means == Stk then 1 else 0
    {
      CallCount(oversized, history, Entry(SendStk, Some(files[k].bookId)));
      RecordedByResult(files, cfg, history, results, k);
    }
    forall book: Option<nat> | book.None? || book.value !in IdsOf(files)
      ensures Count(entries, Entry(SendStk, book)) == 0
    {
      CallCount(oversized, history, Entry(SendStk, book));
      if book.Some? {
        StrangersUnrecorded(files, cfg, history, results, book.value);
      }
    }
    forall book: Option<nat>
      ensures Count(entries, Entry(SendSmtp, book)) == 0
    {
      CallCount(oversized, history, Entry(SendSmtp, book));
    }
  }

  lemma StrangersUnrecorded(files: seq<BookFile>, cfg: StkConfig, history: seq<Record>, results: seq<DeliveryResult>,
                            x: nat)
    requires NoDuplicates(IdsOf(files)) && ReportedBy(files, cfg, history, results) && x !in IdsOf(files)
    ensures Count(RecordedIds(history), x) == 0
  {
    hide Count, RecordedIds;
    FilterKeepsDistinct(Fits(cfg.maxBatchBytes), files);
    Absent(Filter(TooBig(cfg.maxBatchBytes), files), history, x);
  }

  // Sends that Amazon accepted and nobody recorded.

  /** What the broken sessions had uploaded before they broke. */
  function UnrecordedIds(history: seq<Record>): seq<nat> {
    if history == [] then []
    else
      var n := |history| - 1;
      UnrecordedIds(history[..n]) + if history[n].Whole() then [] else IdsOf(history[n].files[..history[n].sent])
  }

  function SentByBroken(history: seq<Record>): nat {
    if history == [] then 0
    else
      var n := |history| - 1;
      SentByBroken(history[..n]) + if history[n].Whole() then 0 else history[n].sent
  }

  /** Acceptances and send events differ by exactly the uploads of sessions that broke later: the daily cap
      bounds what is recorded, and acceptances may exceed it by as many. */
  lemma {:induction false} AcceptedOrRecorded(history: seq<Record>)
    ensures |StkIds(history)| == |RecordedIds(history)| + SentByBroken(history)
    ensures |UnrecordedIds(history)| == SentByBroken(history)
    ensures forall x :: Count(StkIds(history), x) == Count(RecordedIds(history), x) + Count(UnrecordedIds(history), x)
  {
    hide Count;
    if history == [] {
      forall x
        ensures Count(StkIds(history), x) == Count(RecordedIds(history), x) + Count(UnrecordedIds(history), x)
      {
        NoneCounted<nat>(x);
      }
    } else {
      var n := |history| - 1;
      var last := history[n];
      AcceptedOrRecorded(history[..n]);
      assert last.files[..|last.files|] == last.files;
      forall x
        ensures Count(StkIds(history), x) == Count(RecordedIds(history), x) + Count(UnrecordedIds(history), x)
      {
        HistoryCounts(history, x);
        if last.Whole() {
          assert UnrecordedIds(history[..n]) + [] == UnrecordedIds(history[..n]);
        } else {
          CountAppend(UnrecordedIds(history[..n]), IdsOf(last.files[..last.sent]), x);
        }
      }
    }
  }

  /** The same, told by the log of the call. */
  lemma AcceptedBeyondLog(oversized: seq<BookFile>, history: seq<Record>)
    ensures |StkIds(history)| == OfKind(CallEntries(oversized, history), SendStk) + SentByBroken(history)
  {
    hide *;
    CallOfKind(oversized, history);
    AcceptedOrRecorded(history);
  }
}
