/** Batch delivery: pack, send each batch in one signed session, fall back to SMTP batch by batch. */
module BatchDelivery {
  import opened Prelude
  import opened Packing
  import opened Quota
  import opened Router

  // One signed session.

  datatype SessionOutcome =
    | AllSent
    | SessionNotConfigured
    | BatchOverflow
    | SessionFailed
    | FileFailed(why: SendOutcome)

  /** The size checks before a session: one file, or all of them together, over the limit. */
  method Overflows(files: seq<BookFile>, maxBatchBytes: int) returns (over: bool)
    ensures over == (Bytes(files) > maxBatchBytes)
  {
    var total := 0;
    for i := 0 to |files|
      invariant total == Bytes(files[..i])
    {
      assert files == files[..i] + files[i..] && files[..i + 1] == files[..i] + [files[i]];
      BytesAppend(files[..i], files[i..]);
      BytesSnoc(files[..i], files[i]);
      if files[i].size > maxBatchBytes {
        return true;
      }
      total := total + files[i].size;
    }
    assert files[..|files|] == files;
    over := total > maxBatchBytes;
  }

  /** Nothing fails and no time passes. */
  predicate Smooth(net: Channels, log: EventLog) {
    net.reliable && log.instant
  }

  /** Preflight size checks, then one file after the other until the first failure. `sent` counts the
      files Amazon accepted, which the caller of the source never learns when the call fails. */
  method SendFiles(net: Channels, log: EventLog, files: seq<BookFile>, maxBatchBytes: int)
    returns (o: SessionOutcome, ghost sent: nat)
    modifies net`stkAccepted, net`stkOutcomes, log`now
    ensures log.now >= old(log.now)
    ensures sent <= |files| && net.stkAccepted == old(net.stkAccepted) + IdsOf(files[..sent])
    ensures |net.stkOutcomes| <= |old(net.stkOutcomes)| + sent + 1
    ensures o == AllSent ==> sent == |files|
    ensures o != AllSent && files != [] ==> sent < |files|
    ensures o == BatchOverflow ==> Bytes(files) > maxBatchBytes
    ensures Bytes(files) > maxBatchBytes ==> sent == 0 && (o == BatchOverflow || o == SessionNotConfigured)
    ensures net.reliable && Bytes(files) <= maxBatchBytes ==> o == AllSent
    ensures log.instant ==> log.now == old(log.now)
  {
    sent := 0;
    assert IdsOf(files[..0]) == [];
    var configured: bool := *;
    configured := configured || net.reliable;
    if !configured {
      return SessionNotConfigured, 0;
    }
    var over := Overflows(files, maxBatchBytes);
    if over {
      return BatchOverflow, 0;
    }
    var clientBuilt: bool := *;
    clientBuilt := clientBuilt || net.reliable;
    if !clientBuilt {
      return SessionFailed, 0;
    }
    for i := 0 to |files|
      invariant sent == i
      invariant net.stkAccepted == old(net.stkAccepted) + IdsOf(files[..i])
      invariant |net.stkOutcomes| == |old(net.stkOutcomes)| + i
      invariant log.now >= old(log.now) && (log.instant ==> log.now == old(log.now))
    {
      if i > 0 {
        log.Sleep();
      }
      var outcome := net.StkSend(files[i].bookId);
      if !outcome.Accepted? {
        return FileFailed(outcome), i;
      }
      assert IdsOf(files[..i + 1]) == IdsOf(files[..i]) + [files[i].bookId];
      sent := i + 1;
    }
    o := AllSent;
  }

  // What one batch leaves behind.

  /** The batch, how many of its files Amazon accepted, and the result reported for each file. */
  datatype BatchRecord = BatchRecord(files: seq<BookFile>, sent: nat, results: seq<DeliveryResult>) {
    predicate Whole() {
      sent == |files|
    }
  }

  predicate Faithful(r: BatchRecord) {
    && r.files != []
    && |r.results| == |r.files|
    && r.sent <= |r.files|
    && forall k :: 0 <= k < |r.results| ==>
         if r.Whole() then r.results[k] == DeliveryResult(true, Stk, 1)
         else r.results[k].means == Smtp && r.results[k].attempts == 2
  }

  type Record = r: BatchRecord | Faithful(r)
    witness BatchRecord([BookFile(0, 0)], 1, [DeliveryResult(true, Stk, 1)])

  function OkIds(files: seq<BookFile>, results: seq<DeliveryResult>): seq<nat>
    requires |files| == |results|
  {
    if files == [] then []
    else
      var n := |files| - 1;
      OkIds(files[..n], results[..n]) + (if results[n].ok then [files[n].bookId] else [])
  }

  function StkIds(history: seq<Record>): seq<nat>
  {
    if history == [] then []
    else
      var n := |history| - 1;
      StkIds(history[..n]) + IdsOf(history[n].files[..history[n].sent])
  }

  function SmtpIds(history: seq<Record>): seq<nat>
  {
    if history == [] then []
    else
      var n := |history| - 1;
      SmtpIds(history[..n]) + (if history[n].Whole() then [] else OkIds(history[n].files, history[n].results))
  }

  function BatchesOf(history: seq<Record>): seq<seq<BookFile>> {
    seq(|history|, j requires 0 <= j < |history| => history[j].files)
  }

  /** `result_map[id] = result`, one assignment after the other. */
  function Assigned(m: map<nat, DeliveryResult>, ids: seq<nat>, results: seq<DeliveryResult>): map<nat, DeliveryResult>
    requires |ids| == |results|
  {
    if ids == [] then m
    else
      var n := |ids| - 1;
      Assigned(m, ids[..n], results[..n])[ids[n] := results[n]]
  }

  lemma AssignOne(m: map<nat, DeliveryResult>, files: seq<BookFile>, results: seq<DeliveryResult>, i: nat)
    requires i < |files| && |results| == i + 1
    ensures Assigned(m, IdsOf(files[..i + 1]), results)
         == Assigned(m, IdsOf(files[..i]), results[..i])[files[i].bookId := results[i]]
  {
    var ids := IdsOf(files[..i + 1]);
    assert ids[..i] == IdsOf(files[..i]) && ids[i] == files[i].bookId;
  }

  lemma OkIdsOne(files: seq<BookFile>, results: seq<DeliveryResult>, i: nat)
    requires i < |files| && |results| == i + 1
    ensures OkIds(files[..i + 1], results)
         == OkIds(files[..i], results[..i]) + (if results[i].ok then [files[i].bookId] else [])
  {
    assert files[..i + 1][..i] == files[..i];
  }

  lemma NothingAssigned(m: map<nat, DeliveryResult>, files: seq<BookFile>)
    ensures Assigned(m, IdsOf(files[..0]), []) == m && OkIds(files[..0], []) == []
  {
  }

  // What the audit log says about it.

  function ForEach(kind: Kind, files: seq<BookFile>): seq<Entry> {
    ForIds(kind, IdsOf(files))
  }

  lemma ForEachNext(kind: Kind, files: seq<BookFile>, i: nat)
    requires i < |files|
    ensures ForEach(kind, files[..i + 1]) == ForEach(kind, files[..i]) + [Entry(kind, Some(files[i].bookId))]
  {
    assert IdsOf(files[..i + 1]) == IdsOf(files[..i]) + [files[i].bookId];
  }

  /** A batch that went through has one event of its own and one for each book; otherwise each book has a
      failure, also those that Amazon had accepted by then. */
  function BatchEntries(r: Record): seq<Entry> {
    if r.Whole() then [Entry(SendStkBatch, None)] + ForEach(SendStk, r.files) else ForEach(SendStkFailed, r.files)
  }

  function HistoryEntries(history: seq<Record>): seq<Entry> {
    if history == [] then []
    else
      var n := |history| - 1;
      HistoryEntries(history[..n]) + BatchEntries(history[n])
  }

  /** What the call records: the refused books first, then batch by batch. */
  function CallEntries(oversized: seq<BookFile>, history: seq<Record>): seq<Entry> {
    ForEach(SendStkFailed, oversized) + HistoryEntries(history)
  }

  /** The books recorded as sent by Send-to-Kindle: those of the whole batches. */
  function RecordedIds(history: seq<Record>): seq<nat> {
    if history == [] then []
    else
      var n := |history| - 1;
      RecordedIds(history[..n]) + if history[n].Whole() then IdsOf(history[n].files) else []
  }

  lemma BatchOfKind(r: Record)
    ensures OfKind(BatchEntries(r), SendStk) == if r.Whole() then |r.files| else 0
    ensures OfKind(BatchEntries(r), SendSmtp) == 0
  {
    var front := [Entry(SendStkBatch, None)];
    assert front[..0] == [];
    assert OfKind(front, SendStk) == OfKind(front, SendSmtp) == 0;
    OfKindAppend(front, ForEach(SendStk, r.files), SendStk);
    OfKindAppend(front, ForEach(SendStk, r.files), SendSmtp);
    ForIdsOfKind(SendStk, IdsOf(r.files), SendStk);
    ForIdsOfKind(SendStk, IdsOf(r.files), SendSmtp);
    ForIdsOfKind(SendStkFailed, IdsOf(r.files), SendStk);
    ForIdsOfKind(SendStkFailed, IdsOf(r.files), SendSmtp);
  }

  lemma {:induction false} HistoryOfKind(history: seq<Record>)
    ensures OfKind(HistoryEntries(history), SendStk) == |RecordedIds(history)|
    ensures OfKind(HistoryEntries(history), SendSmtp) == 0
  {
    if history != [] {
      hide OfKind, BatchEntries;
      var n := |history| - 1;
      HistoryOfKind(history[..n]);
      BatchOfKind(history[n]);
      OfKindAppend(HistoryEntries(history[..n]), BatchEntries(history[n]), SendStk);
      OfKindAppend(HistoryEntries(history[..n]), BatchEntries(history[n]), SendSmtp);
    }
  }

  /** As many Send-to-Kindle sends as books of whole batches, and no SMTP send, which only the caller records. */
  lemma CallOfKind(oversized: seq<BookFile>, history: seq<Record>)
    ensures OfKind(CallEntries(oversized, history), SendStk) == |RecordedIds(history)|
    ensures OfKind(CallEntries(oversized, history), SendSmtp) == 0
  {
    hide OfKind, RecordedIds, ForIds, HistoryEntries;
    HistoryOfKind(history);
    ForIdsOfKind(SendStkFailed, IdsOf(oversized), SendStk);
    ForIdsOfKind(SendStkFailed, IdsOf(oversized), SendSmtp);
    OfKindAppend(ForEach(SendStkFailed, oversized), HistoryEntries(history), SendStk);
    OfKindAppend(ForEach(SendStkFailed, oversized), HistoryEntries(history), SendSmtp);
  }

  lemma {:induction false} RecordedAtMost(history: seq<Record>)
    ensures |RecordedIds(history)| <= |Flatten(BatchesOf(history))|
    ensures (forall j :: 0 <= j < |history| ==> history[j].Whole()) ==>
      |RecordedIds(history)| == |Flatten(BatchesOf(history))|
    decreases |history|
  {
    if history != [] {
      var n := |history| - 1;
      RecordedAtMost(history[..n]);
      assert BatchesOf(history) == BatchesOf(history[..n]) + [history[n].files];
      FlattenSnoc(BatchesOf(history[..n]), history[n].files);
    }
  }

  /** The batch went through: one batch event, then one event and one result per book. */
  method RecordWhole(log: EventLog, batch: seq<BookFile>, resultMap: map<nat, DeliveryResult>)
    returns (newMap: map<nat, DeliveryResult>, ghost results: seq<DeliveryResult>)
    modifies log
    ensures log.now >= old(log.now) && (log.instant ==> log.now == old(log.now))
    ensures |results| == |batch| && forall k :: 0 <= k < |results| ==> results[k] == DeliveryResult(true, Stk, 1)
    ensures newMap == Assigned(resultMap, IdsOf(batch), results)
    ensures Logged(old(log.events), log.events, [Entry(SendStkBatch, None)] + ForEach(SendStk, batch),
                   old(log.now), log.now)
  {
    hide Logged, ForEach;
    newMap, results := resultMap, [];
    ghost var before, started, first := log.events, log.now, [Entry(SendStkBatch, None)];
    log.Record(SendStkBatch, None);
    LoggedOne(before, log.events[|before|], started, log.now);
    assert first + ForEach(SendStk, batch[..0]) == first by {
      NoEntries(SendStk, batch);
    }
    for i := 0 to |batch|
      invariant |results| == i && forall k :: 0 <= k < i ==> results[k] == DeliveryResult(true, Stk, 1)
      invariant newMap == Assigned(resultMap, IdsOf(batch[..i]), results)
      invariant log.now >= started && (log.instant ==> log.now == started)
      invariant Logged(before, log.events, first + ForEach(SendStk, batch[..i]), started, log.now)
    {
      RecordNext(log, SendStk, batch, i, before, first, started);
      var result := DeliveryResult(true, Stk, 1);
      results := results + [result];
      AssignOne(resultMap, batch, results, i);
      newMap := newMap[batch[i].bookId := result];
    }
    assert batch[..|batch|] == batch;
  }

  lemma NoEntries(kind: Kind, files: seq<BookFile>)
    ensures ForEach(kind, files[..0]) == []
  {
  }

  /** One more event of a sequence with one event per book. */
  method RecordNext(log: EventLog, kind: Kind, files: seq<BookFile>, i: nat,
                    ghost before: seq<Event>, ghost first: seq<Entry>, ghost started: int)
    requires i < |files| && started <= log.now
    requires Logged(before, log.events, first + ForEach(kind, files[..i]), started, log.now)
    modifies log
    ensures log.now >= old(log.now) && (log.instant ==> log.now == old(log.now))
    ensures log.events == old(log.events) + [Event(kind, Some(files[i].bookId), log.now)]
    ensures Logged(before, log.events, first + ForEach(kind, files[..i + 1]), started, log.now)
  {
    hide Logged, ForEach;
    ghost var earlier, moment := log.events, log.now;
    log.Record(kind, Some(files[i].bookId));
    LoggedOne(earlier, log.events[|earlier|], moment, log.now);
    LoggedMore(before, earlier, log.events, first + ForEach(kind, files[..i]),
               [Entry(kind, Some(files[i].bookId))], started, moment, log.now);
    ForEachNext(kind, files, i);
    assert first + ForEach(kind, files[..i]) + [Entry(kind, Some(files[i].bookId))]
        == first + ForEach(kind, files[..i + 1]);
  }

  /** The batch failed: every one of its books is sent again by SMTP, also those Amazon accepted. */
  method FallBack(net: Channels, log: EventLog, batch: seq<BookFile>, smtpCap: int,
                  resultMap: map<nat, DeliveryResult>, ghost start: seq<Event>)
    returns (newMap: map<nat, DeliveryResult>, ghost results: seq<DeliveryResult>)
    requires SameFor(start, log.events, SendSmtp)
    modifies net`smtpAccepted, net`smtpCalls, log
    ensures log.now >= old(log.now)
    ensures |results| == |batch|
    ensures forall k :: 0 <= k < |results| ==> results[k].means == Smtp && results[k].attempts == 2
    ensures newMap == Assigned(resultMap, IdsOf(batch), results)
    ensures net.smtpAccepted == old(net.smtpAccepted) + OkIds(batch, results)
    ensures Logged(old(log.events), log.events, ForEach(SendStkFailed, batch), old(log.now), log.now)
    ensures OkIds(batch, results) != [] ==> GatePassed(start, smtpCap, log.now)
  {
    hide Logged, SameFor, GatePassed, Assigned, OkIds, ForEach, IdsOf;
    newMap, results := resultMap, [];
    ghost var before, started := log.events, log.now;
    NothingAssigned(resultMap, batch);
    NoEntries(SendStkFailed, batch);
    LoggedNone(before, started, started);
    for i := 0 to |batch|
      invariant |results| == i
      invariant forall k :: 0 <= k < i ==> results[k].means == Smtp && results[k].attempts == 2
      invariant newMap == Assigned(resultMap, IdsOf(batch[..i]), results)
      invariant net.smtpAccepted == old(net.smtpAccepted) + OkIds(batch[..i], results)
      invariant log.now >= started
      invariant Logged(before, log.events, ForEach(SendStkFailed, batch[..i]), started, log.now)
      invariant SameFor(start, log.events, SendSmtp)
      invariant OkIds(batch[..i], results) != [] ==> GatePassed(start, smtpCap, log.now)
    {
      ghost var moment := log.now;
      var ok := FallBackOne(net, log, batch, i, smtpCap, before, started, start);
      GateStaysPassed(start, smtpCap, moment, log.now);
      var result := DeliveryResult(ok, Smtp, 2);
      results := results + [result];
      AssignOne(resultMap, batch, results, i);
      OkIdsOne(batch, results, i);
      newMap := newMap[batch[i].bookId := result];
    }
    assert batch[..|batch|] == batch;
  }

  method FallBackOne(net: Channels, log: EventLog, batch: seq<BookFile>, i: nat, smtpCap: int,
                     ghost before: seq<Event>, ghost started: int, ghost start: seq<Event>)
    returns (ok: bool)
    requires i < |batch| && started <= log.now
    requires Logged(before, log.events, ForEach(SendStkFailed, batch[..i]), started, log.now)
    requires SameFor(start, log.events, SendSmtp)
    modifies net`smtpAccepted, net`smtpCalls, log
    ensures log.now >= old(log.now)
    ensures Logged(before, log.events, ForEach(SendStkFailed, batch[..i + 1]), started, log.now)
    ensures SameFor(start, log.events, SendSmtp)
    ensures net.smtpAccepted == if ok then old(net.smtpAccepted) + [batch[i].bookId] else old(net.smtpAccepted)
    ensures ok ==> GatePassed(start, smtpCap, log.now)
  {
    hide Logged, SameFor, ForEach;
    assert [] + ForEach(SendStkFailed, batch[..i]) == ForEach(SendStkFailed, batch[..i]);
    RecordNext(log, SendStkFailed, batch, i, before, [], started);
    assert [] + ForEach(SendStkFailed, batch[..i + 1]) == ForEach(SendStkFailed, batch[..i + 1]);
    SameForOne(start, old(log.events), SendSmtp, Event(SendStkFailed, Some(batch[i].bookId), log.now));
    ghost var moment := log.now;
    ok := SmtpDeliver(net, log, batch[i].bookId, smtpCap);
    LoggedLonger(before, log.events, ForEach(SendStkFailed, batch[..i + 1]), started, moment, log.now);
    SameGate(start, log.events, smtpCap, log.now);
  }

  lemma SameGate(before: seq<Event>, after: seq<Event>, smtpCap: int, now: int)
    requires SameFor(before, after, SendSmtp)
    ensures GatePassed(before, smtpCap, now) <==> GatePassed(after, smtpCap, now)
  {
  }

  /** One iteration of the batch loop. */
  method SendBatch(net: Channels, log: EventLog, batch: seq<BookFile>, cfg: StkConfig, smtpCap: int,
                   resultMap: map<nat, DeliveryResult>, ghost start: seq<Event>)
    returns (newMap: map<nat, DeliveryResult>, ghost r: Record)
    requires batch != [] && SameFor(start, log.events, SendSmtp)
    modifies net, log
    ensures log.now >= old(log.now)
    ensures r.files == batch
    ensures newMap == Assigned(resultMap, IdsOf(batch), r.results)
    ensures net.stkAccepted == old(net.stkAccepted) + IdsOf(batch[..r.sent])
    ensures net.smtpAccepted == old(net.smtpAccepted) + (if r.Whole() then [] else OkIds(batch, r.results))
    ensures Logged(old(log.events), log.events, BatchEntries(r), old(log.now), log.now)
    ensures !r.Whole() && OkIds(batch, r.results) != [] ==> GatePassed(start, smtpCap, log.now)
    ensures Smooth(net, log) && Bytes(batch) <= cfg.maxBatchBytes ==> log.now == old(log.now) && r.Whole()
  {
    hide Logged, SameFor, GatePassed, Assigned, OkIds;
    log.Sleep();
    var o;
    ghost var sent, results;
    o, sent := SendFiles(net, log, batch, cfg.maxBatchBytes);
    ghost var moment := log.now;
    if o == AllSent {
      newMap, results := RecordWhole(log, batch, resultMap);
    } else {
      newMap, results := FallBack(net, log, batch, smtpCap, resultMap, start);
    }
    r := BatchRecord(batch, sent, results);
    LoggedSooner(old(log.events), log.events, BatchEntries(r), old(log.now), moment, log.now);
  }

  lemma LoggedSooner(before: seq<Event>, after: seq<Event>, entries: seq<Entry>, sooner: int, from: int, to: int)
    requires Logged(before, after, entries, from, to) && sooner <= from
    ensures Logged(before, after, entries, sooner, to)
  {
  }

  // The whole call.

  function Refused(n: nat): seq<DeliveryResult> {
    seq(n, i => DeliveryResult(false, Stk, 0))
  }

  /** `result_map` after the oversized files and every batch so far. */
  function ResultMap(oversized: seq<BookFile>, history: seq<Record>): map<nat, DeliveryResult> {
    if history == [] then Assigned(map[], IdsOf(oversized), Refused(|oversized|))
    else
      var n := |history| - 1;
      Assigned(ResultMap(oversized, history[..n]), IdsOf(history[n].files), history[n].results)
  }

  lemma AssignedKeys(m: map<nat, DeliveryResult>, ids: seq<nat>, results: seq<DeliveryResult>)
    requires |ids| == |results|
    ensures forall x :: x in Assigned(m, ids, results) <==> x in m || x in ids
  {
    if ids != [] {
      var n := |ids| - 1;
      AssignedKeys(m, ids[..n], results[..n]);
      assert forall x :: x in ids <==> x in ids[..n] || x == ids[n];
    }
  }

  lemma ResultMapKeys(oversized: seq<BookFile>, history: seq<Record>)
    ensures forall f :: f in oversized || f in Flatten(BatchesOf(history)) ==> f.bookId in ResultMap(oversized, history)
  {
    if history == [] {
      AssignedKeys(map[], IdsOf(oversized), Refused(|oversized|));
      forall f | f in oversized ensures f.bookId in IdsOf(oversized) {
        var i :| 0 <= i < |oversized| && oversized[i] == f;
        assert IdsOf(oversized)[i] == f.bookId;
      }
    } else {
      var n := |history| - 1;
      var last := history[n];
      ResultMapKeys(oversized, history[..n]);
      AssignedKeys(ResultMap(oversized, history[..n]), IdsOf(last.files), last.results);
      assert BatchesOf(history) == BatchesOf(history[..n]) + [last.files];
      FlattenSnoc(BatchesOf(history[..n]), last.files);
      forall f | f in last.files ensures f.bookId in IdsOf(last.files) {
        var i :| 0 <= i < |last.files| && last.files[i] == f;
        assert IdsOf(last.files)[i] == f.bookId;
      }
    }
  }

  lemma {:induction false} FilteredEitherWay(maxBytes: int, files: seq<BookFile>)
    ensures forall f :: f in files ==> f in Filter(Fits(maxBytes), files) || f in Filter(TooBig(maxBytes), files)
    decreases |files|
  {
    if files != [] {
      FilteredEitherWay(maxBytes, files[1..]);
      assert files == [files[0]] + files[1..];
    }
  }

  method SmtpAll(net: Channels, log: EventLog, files: seq<BookFile>, smtpCap: int)
    returns (results: seq<DeliveryResult>)
    modifies net`smtpAccepted, net`smtpCalls, log`now
    ensures log.now >= old(log.now)
    ensures |results| == |files|
    ensures forall k :: 0 <= k < |results| ==> results[k].means == Smtp && results[k].attempts == 1
    ensures net.smtpAccepted == old(net.smtpAccepted) + OkIds(files, results)
    ensures OkIds(files, results) != [] ==> GatePassed(log.events, smtpCap, log.now)
  {
    hide GatePassed, OkIds;
    results := [];
    NothingAssigned(map[], files);
    for i := 0 to |files|
      invariant |results| == i
      invariant forall k :: 0 <= k < i ==> results[k].means == Smtp && results[k].attempts == 1
      invariant net.smtpAccepted == old(net.smtpAccepted) + OkIds(files[..i], results)
      invariant log.now >= old(log.now)
      invariant OkIds(files[..i], results) != [] ==> GatePassed(log.events, smtpCap, log.now)
    {
      ghost var moment := log.now;
      var ok := SmtpDeliver(net, log, files[i].bookId, smtpCap);
      GateStaysPassed(log.events, smtpCap, moment, log.now);
      results := results + [DeliveryResult(ok, Smtp, 1)];
      OkIdsOne(files, results, i);
    }
    assert files[..|files|] == files;
  }

  method RefuseOversized(log: EventLog, oversized: seq<BookFile>) returns (resultMap: map<nat, DeliveryResult>)
    modifies log
    ensures log.now >= old(log.now) && (log.instant ==> log.now == old(log.now))
    ensures Logged(old(log.events), log.events, ForEach(SendStkFailed, oversized), old(log.now), log.now)
    ensures resultMap == ResultMap(oversized, [])
  {
    hide Logged, ForEach;
    resultMap := map[];
    ghost var before, started := log.events, log.now;
    NoEntries(SendStkFailed, oversized);
    LoggedNone(before, started, started);
    for i := 0 to |oversized|
      invariant log.now >= started && (log.instant ==> log.now == started)
      invariant Logged(before, log.events, ForEach(SendStkFailed, oversized[..i]), started, log.now)
      invariant resultMap == Assigned(map[], IdsOf(oversized[..i]), Refused(i))
    {
      assert [] + ForEach(SendStkFailed, oversized[..i]) == ForEach(SendStkFailed, oversized[..i]);
      RecordNext(log, SendStkFailed, oversized, i, before, [], started);
      assert [] + ForEach(SendStkFailed, oversized[..i + 1]) == ForEach(SendStkFailed, oversized[..i + 1]);
      AssignOne(map[], oversized, Refused(i + 1), i);
      assert Refused(i + 1)[..i] == Refused(i);
      resultMap := resultMap[oversized[i].bookId := DeliveryResult(false, Stk, 0)];
    }
    assert oversized[..|oversized|] == oversized;
  }

  lemma HistorySnoc(oversized: seq<BookFile>, history: seq<Record>, r: Record)
    ensures BatchesOf(history + [r]) == BatchesOf(history) + [r.files]
    ensures CallEntries(oversized, history + [r]) == CallEntries(oversized, history) + BatchEntries(r)
    ensures StkIds(history + [r]) == StkIds(history) + IdsOf(r.files[..r.sent])
    ensures SmtpIds(history + [r]) == SmtpIds(history) + (if r.Whole() then [] else OkIds(r.files, r.results))
    ensures ResultMap(oversized, history + [r]) == Assigned(ResultMap(oversized, history), IdsOf(r.files), r.results)
  {
    assert (history + [r])[..|history|] == history;
    assert BatchesOf(history + [r]) == BatchesOf(history) + [r.files];
  }

  /** Where the batch loop stands: what the channels took, what will be reported, what was logged. */
  ghost predicate Progress(net: Channels, log: EventLog, stk0: seq<nat>, smtp0: seq<nat>, smtpCap: int,
                           resultMap: map<nat, DeliveryResult>, oversized: seq<BookFile>, history: seq<Record>,
                           before: seq<Event>, checked: int)
    reads net, log
  {
    && net.stkAccepted == stk0 + StkIds(history)
    && net.smtpAccepted == smtp0 + SmtpIds(history)
    && resultMap == ResultMap(oversized, history)
    && checked <= log.now
    && Logged(before, log.events, CallEntries(oversized, history), checked, log.now)
    && (SmtpIds(history) != [] ==> GatePassed(before, smtpCap, log.now))
  }

  method NextBatch(net: Channels, log: EventLog, batch: seq<BookFile>, cfg: StkConfig, smtpCap: int,
                   resultMap: map<nat, DeliveryResult>, ghost oversized: seq<BookFile>, ghost history: seq<Record>,
                   ghost stk0: seq<nat>, ghost smtp0: seq<nat>, ghost before: seq<Event>, ghost checked: int)
    returns (newMap: map<nat, DeliveryResult>, ghost r: Record)
    requires batch != []
    requires Progress(net, log, stk0, smtp0, smtpCap, resultMap, oversized, history, before, checked)
    modifies net, log
    ensures log.now >= old(log.now)
    ensures r.files == batch
    ensures Progress(net, log, stk0, smtp0, smtpCap, newMap, oversized, history + [r], before, checked)
    ensures Smooth(net, log) && Bytes(batch) <= cfg.maxBatchBytes ==> log.now == old(log.now) && r.Whole()
  {
    hide Logged, SameFor, GatePassed, Assigned, OkIds, StkIds, SmtpIds, ResultMap, CallEntries, BatchEntries;
    ghost var earlier, moment := log.events, log.now;
    OnlyStk(before, earlier, oversized, history, checked, moment);
    newMap, r := SendBatch(net, log, batch, cfg, smtpCap, resultMap, before);
    GateStaysPassed(before, smtpCap, moment, log.now);
    HistorySnoc(oversized, history, r);
    LoggedMore(before, earlier, log.events, CallEntries(oversized, history), BatchEntries(r), checked, moment, log.now);
  }

  lemma OnlyStk(before: seq<Event>, after: seq<Event>, oversized: seq<BookFile>, history: seq<Record>, from: int,
                to: int)
    requires Logged(before, after, CallEntries(oversized, history), from, to)
    ensures SameFor(before, after, SendSmtp)
    ensures GrewBy(before, after, SendStk, from, |RecordedIds(history)|)
  {
    hide *;
    CallOfKind(oversized, history);
    LoggedGrows(before, after, CallEntries(oversized, history), from, to, SendSmtp);
    LoggedGrows(before, after, CallEntries(oversized, history), from, to, SendStk);
  }

  method SendAllBatches(net: Channels, log: EventLog, batches: seq<seq<BookFile>>, cfg: StkConfig, smtpCap: int,
                        initialMap: map<nat, DeliveryResult>, ghost oversized: seq<BookFile>,
                        ghost stk0: seq<nat>, ghost smtp0: seq<nat>, ghost before: seq<Event>, ghost checked: int)
    returns (resultMap: map<nat, DeliveryResult>, ghost history: seq<Record>)
    requires forall i :: 0 <= i < |batches| ==> batches[i] != []
    requires Progress(net, log, stk0, smtp0, smtpCap, initialMap, oversized, [], before, checked)
    modifies net, log
    ensures log.now >= old(log.now)
    ensures BatchesOf(history) == batches
    ensures Progress(net, log, stk0, smtp0, smtpCap, resultMap, oversized, history, before, checked)
    ensures Smooth(net, log) && (forall b :: b in batches ==> Bytes(b) <= cfg.maxBatchBytes) ==>
      log.now == old(log.now) && forall j :: 0 <= j < |history| ==> history[j].Whole()
  {
    hide Progress;
    resultMap, history := initialMap, [];
    ghost var smooth := Smooth(net, log) && forall b :: b in batches ==> Bytes(b) <= cfg.maxBatchBytes;
    for i := 0 to |batches|
      invariant BatchesOf(history) == batches[..i]
      invariant log.now >= old(log.now)
      invariant Progress(net, log, stk0, smtp0, smtpCap, resultMap, oversized, history, before, checked)
      invariant smooth ==> log.now == old(log.now) && forall j :: 0 <= j < |history| ==> history[j].Whole()
    {
      assert batches[..i + 1] == batches[..i] + [batches[i]];
      ghost var r: Record;
      resultMap, r := NextBatch(net, log, batches[i], cfg, smtpCap, resultMap, oversized, history,
                                stk0, smtp0, before, checked);
      HistorySnoc(oversized, history, r);
      history := history + [r];
    }
    assert batches[..|batches|] == batches;
  }

  method InInputOrder(files: seq<BookFile>, resultMap: map<nat, DeliveryResult>) returns (results: seq<DeliveryResult>)
    requires forall f :: f in files ==> f.bookId in resultMap
    ensures |results| == |files|
    ensures forall k :: 0 <= k < |files| ==> results[k] == resultMap[files[k].bookId]
  {
    results := [];
    for i := 0 to |files|
      invariant |results| == i
      invariant forall k :: 0 <= k < i ==> results[k] == resultMap[files[k].bookId]
    {
      results := results + [resultMap[files[i].bookId]];
    }
  }

  /** What the batch path delivers and reports, given the record of its batches. */
  ghost predicate ReportedBy(files: seq<BookFile>, cfg: StkConfig, history: seq<Record>, results: seq<DeliveryResult>) {
    && |results| == |files|
    && Flatten(BatchesOf(history)) == Filter(Fits(cfg.maxBatchBytes), files)
    && NextFit(BatchesOf(history), cfg.maxBatchBytes, cfg.maxBatchFiles)
    && var reported := ResultMap(Filter(TooBig(cfg.maxBatchBytes), files), history);
       forall i :: 0 <= i < |files| ==> files[i].bookId in reported && results[i] == reported[files[i].bookId]
  }

  method DeliverInBatches(net: Channels, log: EventLog, files: seq<BookFile>, cfg: StkConfig, smtpCap: int)
    returns (results: seq<DeliveryResult>, ghost history: seq<Record>)
    modifies net, log
    ensures log.now >= old(log.now)
    ensures ReportedBy(files, cfg, history, results)
    ensures net.stkAccepted == old(net.stkAccepted) + StkIds(history)
    ensures net.smtpAccepted == old(net.smtpAccepted) + SmtpIds(history)
    ensures Logged(old(log.events), log.events, CallEntries(Filter(TooBig(cfg.maxBatchBytes), files), history),
                   old(log.now), log.now)
    ensures |RecordedIds(history)| <= |files|
    ensures SmtpIds(history) != [] ==> GatePassed(old(log.events), smtpCap, log.now)
    ensures Smooth(net, log) && (forall f :: f in files ==> f.size <= cfg.maxBatchBytes) ==>
      log.now == old(log.now) && |RecordedIds(history)| == |files|
  {
    hide Logged, CallEntries, RecordedIds, StkIds, SmtpIds, ResultMap, GatePassed, NextFit, Filter, Assigned, ForEach;
    ghost var before, checked := log.events, log.now;
    var batches, oversized := PackBatches(files, cfg.maxBatchBytes, cfg.maxBatchFiles);
    EveryBatchWithinLimits(batches, cfg.maxBatchBytes, cfg.maxBatchFiles);
    var resultMap := RefuseOversized(log, oversized);
    NoHistory(oversized);
    resultMap, history := SendAllBatches(net, log, batches, cfg, smtpCap, resultMap, oversized,
                                         net.stkAccepted, net.smtpAccepted, before, checked);
    FilterShrinks(Fits(cfg.maxBatchBytes), files);
    RecordedAtMost(history);
    ResultMapKeys(oversized, history);
    FilteredEitherWay(cfg.maxBatchBytes, files);
    results := InInputOrder(files, resultMap);
    if forall f :: f in files ==> f.size <= cfg.maxBatchBytes {
      FilterAll(Fits(cfg.maxBatchBytes), files);
    }
  }

  lemma NoHistory(oversized: seq<BookFile>)
    ensures CallEntries(oversized, []) == ForEach(SendStkFailed, oversized)
    ensures StkIds([]) == SmtpIds([]) == []
  {
  }

  /** One result per input file, in input order. What each channel accepted, and what is reported for
      which file, is spelt out by `history`; `BatchAccounting` below reads it book by book. */
  method DeliverBatch(net: Channels, log: EventLog, files: seq<BookFile>, cfg: StkConfig, smtpCap: int,
                      configured: bool)
    returns (results: seq<DeliveryResult>, ghost viaStk: bool, ghost history: seq<Record>)
    modifies net, log
    ensures log.now >= old(log.now)
    ensures |results| == |files|
    ensures viaStk ==
      (configured && !(cfg.dailyCap.Some? && StkQuota(old(log.events), old(log.now), cfg.dailyCap.value).exhausted))
    ensures !viaStk ==>
      && net.stkAccepted == old(net.stkAccepted) && log.events == old(log.events)
      && net.smtpAccepted == old(net.smtpAccepted) + OkIds(files, results)
      && forall i :: 0 <= i < |files| ==> results[i].means == Smtp && results[i].attempts == 1
    ensures viaStk ==>
      && ReportedBy(files, cfg, history, results)
      && net.stkAccepted == old(net.stkAccepted) + StkIds(history)
      && net.smtpAccepted == old(net.smtpAccepted) + SmtpIds(history)
      && Logged(old(log.events), log.events, CallEntries(Filter(TooBig(cfg.maxBatchBytes), files), history),
                old(log.now), log.now)
    ensures cfg.dailyCap.Some? ==>
      GrowsWithin(old(log.events), log.events, SendStk, cfg.dailyCap.value - 1 + |files|)
    ensures SameFor(old(log.events), log.events, SendSmtp)
    ensures net.smtpAccepted != old(net.smtpAccepted) ==> GatePassed(old(log.events), smtpCap, log.now)
    ensures viaStk && Smooth(net, log) && (forall f :: f in files ==> f.size <= cfg.maxBatchBytes) ==>
      log.now == old(log.now) && Counted(old(log.events), log.events, SendStk, log.now, |files|)
  {
    hide Logged, SameFor, GrowsWithin, Counted, CallEntries, RecordedIds, OkIds;
    history, viaStk := [], false;
    var stkAvailable := configured;
    if stkAvailable && cfg.dailyCap.Some? {
      var status := StkQuota(log.events, log.now, cfg.dailyCap.value);
      if status.exhausted {
        stkAvailable := false;
      }
    }
    if !stkAvailable {
      results := SmtpAll(net, log, files, smtpCap);
      Unchanged(log.events, cfg, |files|);
      return;
    }
    viaStk := true;
    ghost var before, checked := log.events, log.now;
    results, history := DeliverInBatches(net, log, files, cfg, smtpCap);
    ghost var oversized := Filter(TooBig(cfg.maxBatchBytes), files);
    OnlyStk(before, log.events, oversized, history, checked, log.now);
    if cfg.dailyCap.Some? {
      GrewByMore(before, log.events, SendStk, checked, |RecordedIds(history)|, |files|);
      OneCheckManySends(before, log.events, SendStk, cfg.dailyCap.value, checked, |files|);
    }
    if log.now == checked {
      CallOfKind(oversized, history);
      LoggedCounts(before, log.events, CallEntries(oversized, history), checked, SendStk);
    }
  }

  lemma Unchanged(events: seq<Event>, cfg: StkConfig, n: nat)
    ensures SameFor(events, events, SendSmtp)
    ensures cfg.dailyCap.Some? ==> GrowsWithin(events, events, SendStk, cfg.dailyCap.value - 1 + n)
  {
  }

  lemma GrewByMore(before: seq<Event>, after: seq<Event>, kind: Kind, checked: int, n: nat, more: nat)
    requires GrewBy(before, after, kind, checked, n) && n <= more
    ensures GrewBy(before, after, kind, checked, more)
  {
  }

  lemma {:induction false} FilterShrinks<T>(keep: T -> bool, s: seq<T>)
    ensures |Filter(keep, s)| <= |s|
    decreases |s|
  {
    if s != [] {
      FilterShrinks(keep, s[1..]);
    }
  }
}
