/** What follows the common delivery of a tick: every waiting book is settled by its own result, and the audit
    log, the channels and the rows are made to agree. */
module Settling {
  import opened Prelude
  import opened BookRows
  import opened Packing
  import opened Quota
  import opened Router
  import opened BatchDelivery
  import opened BatchAccounting
  import opened Worker
  import opened Pipeline

  /** The tally dictionary of one tick, keyed by terminal status. */
  datatype Tally = Tally(sent: nat, failed: nat, needsReview: nat, skipped: nat, deferred: nat, inFlight: nat) {
    function Total(): nat {
      sent + failed + needsReview + skipped + deferred + inFlight
    }

    function Plus(v: Verdict): Tally {
      match v
      case SentV => this.(sent := sent + 1)
      case FailedV => this.(failed := failed + 1)
      case NeedsReviewV => this.(needsReview := needsReview + 1)
      case SkippedV => this.(skipped := skipped + 1)
      case InFlightV => this.(inFlight := inFlight + 1)
      case NeedsDelivery(_, _) => this
      case Raised => this
    }
  }

  /** The tally counts exactly the verdicts that are final. */
  predicate Matches(t: Tally, vs: seq<Verdict>) {
    && t.sent == Count(vs, SentV) && t.failed == Count(vs, FailedV)
    && t.needsReview == Count(vs, NeedsReviewV) && t.skipped == Count(vs, SkippedV)
    && t.deferred == 0 && t.inFlight == 0
  }

  lemma {:induction false} CountUpdate(vs: seq<Verdict>, i: nat, x: Verdict, v: Verdict)
    requires i < |vs|
    ensures Count(vs[i := x], v) == Count(vs, v) - (if vs[i] == v then 1 else 0) + (if x == v then 1 else 0)
  {
    var n := |vs| - 1;
    if i < n {
      assert vs[i := x][..n] == vs[..n][i := x];
      CountUpdate(vs[..n], i, x, v);
    } else {
      assert vs[i := x][..n] == vs[..n];
    }
  }

  lemma {:induction false} AllEndedAllCounted(vs: seq<Verdict>)
    requires forall k :: 0 <= k < |vs| ==> Ended(vs[k])
    ensures Count(vs, SentV) + Count(vs, FailedV) + Count(vs, NeedsReviewV) + Count(vs, SkippedV) == |vs|
  {
    if vs != [] {
      var n := |vs| - 1;
      AllEndedAllCounted(vs[..n]);
      assert Ended(vs[n]);
    }
  }

  lemma MatchesSnoc(t: Tally, vs: seq<Verdict>, v: Verdict)
    requires Matches(t, vs) && (Ended(v) || v.NeedsDelivery?)
    ensures Matches(t.Plus(v), vs + [v])
  {
    CountSnoc(vs, v, SentV);
    CountSnoc(vs, v, FailedV);
    CountSnoc(vs, v, NeedsReviewV);
    CountSnoc(vs, v, SkippedV);
  }

  lemma MatchesUpdate(t: Tally, vs: seq<Verdict>, i: nat, v: Verdict)
    requires i < |vs| && vs[i].NeedsDelivery? && Matches(t, vs) && Ended(v)
    ensures Matches(t.Plus(v), vs[i := v])
  {
    CountUpdate(vs, i, v, SentV);
    CountUpdate(vs, i, v, FailedV);
    CountUpdate(vs, i, v, NeedsReviewV);
    CountUpdate(vs, i, v, SkippedV);
  }

  function StatusOf(v: Verdict): Status
    requires Ended(v)
  {
    match v
    case SentV => Kindled
    case FailedV => Failed
    case NeedsReviewV => NeedsReview
    case SkippedV => Skipped
  }

  lemma StatusFollowsVerdict(t0: Table, t: Table, books: seq<Book>, vs: seq<Verdict>, wss: seq<seq<Write>>)
    requires |vs| == |wss| == |books| && Handled(t0, t, books, |books|, vs, wss)
    requires forall k :: 0 <= k < |vs| ==> Ended(vs[k])
    ensures forall k :: 0 <= k < |vs| ==> books[k].id in t.rows && t.rows[books[k].id].status == StatusOf(vs[k])
  {
    forall k | 0 <= k < |vs|
      ensures books[k].id in t.rows && t.rows[books[k].id].status == StatusOf(vs[k])
    {
      assert BookDone(t0, t, books[k].id, vs[k], wss[k]);
    }
  }

  // Settling the books that waited for the common delivery.

  lemma HandledUpdate(t0: Table, t: Table, t': Table, books: seq<Book>, i: nat,
                      vs: seq<Verdict>, wss: seq<seq<Write>>, w: Write, v: Verdict, now: int)
    requires i < |books| && |vs| == |wss| == |books|
    requires forall j, k :: 0 <= j < k < |books| ==> books[j].id != books[k].id
    requires Handled(t0, t, books, |books|, vs, wss) && vs[i].NeedsDelivery?
    requires OnlyBook(t, t', books[i].id)
    requires t'.rows[books[i].id] == Updated(t.rows[books[i].id], w, now)
    requires t'.trace[books[i].id] == Earlier(t.trace, books[i].id) + [w]
    requires (v == SentV && w.MarkKindled?) || (v == FailedV && w == SetFailed)
    ensures Handled(t0, t', books, |books|, vs[i := v], wss[i := wss[i] + [w]])
  {
    var id, ws := books[i].id, wss[i] + [w];
    assert id in TouchedIds(books, |books|);
    assert BookDone(t0, t, id, vs[i], wss[i]);
    assert ws[..|wss[i]|] == wss[i];
    assert Earlier(t0.trace, id) + wss[i] + [w] == Earlier(t0.trace, id) + ws;
    forall k | 0 <= k < |books|
      ensures BookDone(t0, t', books[k].id, vs[i := v][k], wss[i := ws][k])
    {
      assert BookDone(t0, t, books[k].id, vs[k], wss[k]);
    }
    forall j | j !in TouchedIds(books, |books|)
      ensures Untouched(t0, t', j)
    {
      assert Untouched(t0, t, j);
    }
  }

  method SettleOne(repo: BookRepo, log: EventLog, books: seq<Book>, i: nat, result: DeliveryResult, tally: Tally,
                   ghost t0: Table, ghost vs: seq<Verdict>, ghost wss: seq<seq<Write>>)
    returns (tally': Tally, ghost vs': seq<Verdict>, ghost wss': seq<seq<Write>>)
    requires i < |books| && |vs| == |wss| == |books| && vs[i].NeedsDelivery?
    requires Startable(t0.rows, books)
    requires Handled(t0, Now(repo), books, |books|, vs, wss) && Matches(tally, vs)
    modifies repo, log
    ensures Onward(repo) && log.now >= old(log.now)
    ensures vs' == vs[i := if result.ok then SentV else FailedV] && |wss'| == |books|
    ensures Handled(t0, Now(repo), books, |books|, vs', wss') && Matches(tally', vs')
    ensures OnlyBook(old(Now(repo)), Now(repo), books[i].id)
    ensures result.ok ==> repo.rows[books[i].id].sentMethod == Some(if result.means == Stk then "stk" else "smtp")
    ensures if result.ok && result.means != Stk
      then log.events == old(log.events) + [Event(SendSmtp, Some(books[i].id), log.now)]
      else log.events == old(log.events)
  {
    ghost var t, id := Now(repo), books[i].id;
    assert BookDone(t0, t, id, vs[i], wss[i]);
    if result.ok {
      var w := MarkKindled(if result.means == Stk then "stk" else "smtp");
      repo.Issue(books[i].id, w);
      HandledUpdate(t0, t, Now(repo), books, i, vs, wss, w, SentV, repo.now);
      wss' := wss[i := wss[i] + [w]];
      if result.means != Stk {
        log.Record(SendSmtp, Some(books[i].id));
      }
      MatchesUpdate(tally, vs, i, SentV);
      tally', vs' := tally.Plus(SentV), vs[i := SentV];
    } else {
      repo.Issue(books[i].id, SetFailed);
      HandledUpdate(t0, t, Now(repo), books, i, vs, wss, SetFailed, FailedV, repo.now);
      wss' := wss[i := wss[i] + [SetFailed]];
      MatchesUpdate(tally, vs, i, FailedV);
      tally', vs' := tally.Plus(FailedV), vs[i := FailedV];
    }
  }

  /** Which snapshot positions wait for delivery, in order. */
  ghost predicate AreWaiting(vs: seq<Verdict>, n: nat, waiting: seq<nat>)
    requires n <= |vs|
  {
    && (forall a :: 0 <= a < |waiting| ==> waiting[a] < n && vs[waiting[a]].NeedsDelivery?)
    && (forall a, b :: 0 <= a < b < |waiting| ==> waiting[a] < waiting[b])
    && (forall i :: 0 <= i < n && vs[i].NeedsDelivery? ==> i in waiting)
  }

  function FilesFor(books: seq<Book>, vs: seq<Verdict>, waiting: seq<nat>): seq<BookFile>
    requires |vs| == |books|
    requires forall a :: 0 <= a < |waiting| ==> waiting[a] < |vs| && vs[waiting[a]].NeedsDelivery?
  {
    seq(|waiting|, a requires 0 <= a < |waiting| => BookFile(books[waiting[a]].id, vs[waiting[a]].size))
  }

  /** The first pass over the verdicts: tally the final ones, set the others aside. */
  method SetAside(vs: seq<Verdict>) returns (waiting: seq<nat>, tally: Tally)
    requires forall k :: 0 <= k < |vs| ==> Ended(vs[k]) || vs[k].NeedsDelivery?
    ensures AreWaiting(vs, |vs|, waiting)
    ensures Matches(tally, vs)
  {
    waiting, tally := [], Tally(0, 0, 0, 0, 0, 0);
    for i := 0 to |vs|
      invariant AreWaiting(vs, i, waiting)
      invariant Matches(tally, vs[..i])
    {
      MatchesSnoc(tally, vs[..i], vs[i]);
      assert vs[..i] + [vs[i]] == vs[..i + 1];
      tally := tally.Plus(vs[i]);
      if vs[i].NeedsDelivery? {
        waiting := waiting + [i];
      }
    }
    assert vs[..|vs|] == vs;
  }

  function Judged(r: DeliveryResult): Verdict {
    if r.ok then SentV else FailedV
  }

  ghost predicate SettledUpTo(vs0: seq<Verdict>, vs: seq<Verdict>, waiting: seq<nat>, results: seq<DeliveryResult>,
                              n: nat)
    requires |results| == |waiting| && n <= |waiting|
  {
    && |vs| == |vs0|
    && (forall a :: 0 <= a < n && waiting[a] < |vs| ==> vs[waiting[a]] == Judged(results[a]))
    && (forall i :: 0 <= i < |vs| && i !in waiting[..n] ==> vs[i] == vs0[i])
  }

  // What the second pass records.

  function BySmtp(r: DeliveryResult): DeliveryResult {
    r.(ok := r.ok && r.means == Smtp)
  }

  /** The results with only the SMTP deliveries as ok. */
  function SmtpOnly(results: seq<DeliveryResult>): (r: seq<DeliveryResult>)
    ensures |r| == |results|
  {
    seq(|results|, a requires 0 <= a < |results| => BySmtp(results[a]))
  }

  /** One SMTP event for each book that SMTP delivered. */
  function SmtpEntries(files: seq<BookFile>, results: seq<DeliveryResult>): seq<Entry>
    requires |files| == |results|
  {
    ForIds(SendSmtp, OkIds(files, SmtpOnly(results)))
  }

  lemma SmtpEntriesNext(files: seq<BookFile>, results: seq<DeliveryResult>, a: nat)
    requires |files| == |results| && a < |files|
    ensures SmtpEntries(files[..a + 1], results[..a + 1])
         == SmtpEntries(files[..a], results[..a])
            + if results[a].ok && results[a].means == Smtp then [Entry(SendSmtp, Some(files[a].bookId))] else []
  {
    hide OkIds;
    OkIdsOne(files, SmtpOnly(results)[..a + 1], a);
    assert SmtpOnly(results)[..a + 1] == SmtpOnly(results[..a + 1]);
    assert SmtpOnly(results)[..a + 1][..a] == SmtpOnly(results[..a]);
    var ids := OkIds(files[..a], SmtpOnly(results[..a]));
    ForIdsSnoc(SendSmtp, ids, files[a].bookId);
    assert ids + [] == ids;
  }

  lemma NoSmtpEntries(files: seq<BookFile>, results: seq<DeliveryResult>)
    ensures SmtpEntries(files[..0], results[..0]) == []
  {
  }

  /** Each settled book that was delivered carries the channel of its result. */
  ghost predicate Marked(rows: map<BookId, Row>, books: seq<Book>, waiting: seq<nat>, results: seq<DeliveryResult>,
                         n: nat)
    requires n <= |waiting| == |results|
  {
    forall a :: 0 <= a < n && waiting[a] < |books| && results[a].ok ==>
      var id := books[waiting[a]].id;
      id in rows && rows[id].sentMethod == Some(if results[a].means == Stk then "stk" else "smtp")
  }

  lemma MarkedNext(rows: map<BookId, Row>, rows': map<BookId, Row>, books: seq<Book>, waiting: seq<nat>,
                   results: seq<DeliveryResult>, a: nat)
    requires a < |waiting| == |results| && Marked(rows, books, waiting, results, a)
    requires forall b :: 0 <= b < |waiting| ==> waiting[b] < |books|
    requires forall b, c :: 0 <= b < c < |waiting| ==> waiting[b] < waiting[c]
    requires forall j, k :: 0 <= j < k < |books| ==> books[j].id != books[k].id
    requires var id := books[waiting[a]].id;
      && id in rows' && rows' == rows[id := rows'[id]]
      && (results[a].ok ==> rows'[id].sentMethod == Some(if results[a].means == Stk then "stk" else "smtp"))
    ensures Marked(rows', books, waiting, results, a + 1)
  {
    forall b | 0 <= b < a && results[b].ok
      ensures books[waiting[b]].id in rows' && rows'[books[waiting[b]].id] == rows[books[waiting[b]].id]
    {
      assert waiting[b] < waiting[a];
    }
  }

  /** One more book is settled: what the log has gained since the start. */
  lemma SettledEntries(start: seq<Event>, before: seq<Event>, after: seq<Event>, files: seq<BookFile>,
                       results: seq<DeliveryResult>, a: nat, started: int, moment: int, now: int)
    requires |files| == |results| && a < |files| && started <= moment <= now
    requires Logged(start, before, SmtpEntries(files[..a], results[..a]), started, moment)
    requires after == if results[a].ok && results[a].means != Stk
      then before + [Event(SendSmtp, Some(files[a].bookId), now)] else before
    ensures Logged(start, after, SmtpEntries(files[..a + 1], results[..a + 1]), started, now)
  {
    hide Logged, SmtpEntries;
    var entries := SmtpEntries(files[..a], results[..a]);
    SmtpEntriesNext(files, results, a);
    if results[a].ok && results[a].means != Stk {
      LoggedOne(before, after[|before|], moment, now);
      LoggedMore(start, before, after, entries, [Entry(SendSmtp, Some(files[a].bookId))], started, moment, now);
    } else {
      LoggedLonger(start, before, entries, started, moment, now);
      assert entries + [] == entries;
    }
  }

  /** The second pass: mark kindled or failed, one waiting book after the other, and record what SMTP took. */
  method SettleAll(repo: BookRepo, log: EventLog, books: seq<Book>, waiting: seq<nat>, results: seq<DeliveryResult>,
                   tally0: Tally, ghost t0: Table, ghost vs0: seq<Verdict>, ghost wss0: seq<seq<Write>>)
    returns (tally: Tally, ghost vs: seq<Verdict>, ghost wss: seq<seq<Write>>)
    requires |vs0| == |wss0| == |books| && Startable(t0.rows, books)
    requires Handled(t0, Now(repo), books, |books|, vs0, wss0) && Matches(tally0, vs0)
    requires AreWaiting(vs0, |vs0|, waiting) && |results| == |waiting|
    modifies repo, log
    ensures Onward(repo) && log.now >= old(log.now)
    ensures |vs| == |wss| == |books| && SettledUpTo(vs0, vs, waiting, results, |waiting|)
    ensures Handled(t0, Now(repo), books, |books|, vs, wss) && Matches(tally, vs)
    ensures Marked(repo.rows, books, waiting, results, |waiting|)
    ensures Logged(old(log.events), log.events, SmtpEntries(FilesFor(books, vs0, waiting), results),
                   old(log.now), log.now)
  {
    hide Logged, SmtpEntries, Marked, Handled, Matches, Accounts;
    tally, vs, wss := tally0, vs0, wss0;
    ghost var start, started, files := log.events, log.now, FilesFor(books, vs0, waiting);
    NoSmtpEntries(files, results);
    LoggedNone(start, started, started);
    NoneMarked(repo.rows, books, waiting, results);
    for a := 0 to |waiting|
      invariant Onward(repo) && log.now >= started
      invariant |vs| == |wss| == |books| && SettledUpTo(vs0, vs, waiting, results, a)
      invariant Handled(t0, Now(repo), books, |books|, vs, wss) && Matches(tally, vs)
      invariant Marked(repo.rows, books, waiting, results, a)
      invariant Logged(start, log.events, SmtpEntries(files[..a], results[..a]), started, log.now)
    {
      ghost var vsBefore, events, moment, rows := vs, log.events, log.now, repo.rows;
      assert waiting[a] !in waiting[..a];
      tally, vs, wss := SettleOne(repo, log, books, waiting[a], results[a], tally, t0, vs, wss);
      SettledNext(vs0, vsBefore, vs, waiting, results, a);
      MarkedNext(rows, repo.rows, books, waiting, results, a);
      SettledEntries(start, events, log.events, files, results, a, started, moment, log.now);
    }
    assert files[..|waiting|] == files && results[..|waiting|] == results;
  }

  lemma NoneMarked(rows: map<BookId, Row>, books: seq<Book>, waiting: seq<nat>, results: seq<DeliveryResult>)
    requires |waiting| == |results|
    ensures Marked(rows, books, waiting, results, 0)
  {
  }

  lemma SettledNext(vs0: seq<Verdict>, vs: seq<Verdict>, vs': seq<Verdict>, waiting: seq<nat>,
                    results: seq<DeliveryResult>, a: nat)
    requires |results| == |waiting| && a < |waiting| && waiting[a] < |vs|
    requires forall b, c :: 0 <= b < c < |waiting| ==> waiting[b] < waiting[c]
    requires SettledUpTo(vs0, vs, waiting, results, a)
    requires vs' == vs[waiting[a] := Judged(results[a])]
    ensures SettledUpTo(vs0, vs', waiting, results, a + 1)
  {
    assert waiting[..a + 1] == waiting[..a] + [waiting[a]];
  }

  lemma FilesDistinct(books: seq<Book>, vs: seq<Verdict>, waiting: seq<nat>)
    requires |vs| == |books| && AreWaiting(vs, |vs|, waiting)
    requires forall j, k :: 0 <= j < k < |books| ==> books[j].id != books[k].id
    ensures NoDuplicates(IdsOf(FilesFor(books, vs, waiting)))
  {
    var ids := IdsOf(FilesFor(books, vs, waiting));
    forall a, b | 0 <= a < b < |ids|
      ensures ids[a] != ids[b]
    {
      assert waiting[a] < waiting[b];
    }
  }

  lemma {:induction false} SmtpOkCount(files: seq<BookFile>, results: seq<DeliveryResult>, x: nat)
    requires |files| == |results| && NoDuplicates(IdsOf(files))
    ensures x !in IdsOf(files) ==> Count(OkIds(files, SmtpOnly(results)), x) == 0
    ensures forall k :: 0 <= k < |files| && files[k].bookId == x ==>
      Count(OkIds(files, SmtpOnly(results)), x) == if results[k].ok && results[k].means == Smtp then 1 else 0
  {
    hide Count, OkIds;
    OkIdsCount(files, SmtpOnly(results), x);
  }

  /** SMTP accepted just the books reported as delivered by it. */
  lemma {:induction false} SmtpAsReported(files: seq<BookFile>, cfg: StkConfig, viaStk: bool, history: seq<Record>,
                       results: seq<DeliveryResult>, smtp: seq<nat>, x: nat)
    requires NoDuplicates(IdsOf(files)) && |results| == |files|
    requires viaStk ==> ReportedBy(files, cfg, history, results) && smtp == SmtpIds(history)
    requires !viaStk ==> smtp == OkIds(files, results) && forall k :: 0 <= k < |results| ==> results[k].means == Smtp
    ensures Count(smtp, x) == Count(OkIds(files, SmtpOnly(results)), x)
  {
    hide Count, OkIds, NextFit;
    SmtpOkCount(files, results, x);
    if !viaStk {
      assert SmtpOnly(results) == results;
    } else if x in IdsOf(files) {
      var k :| 0 <= k < |files| && files[k].bookId == x;
      EachBookAccounted(files, cfg, history, results, k);
    } else {
      FilterKeepsDistinct(Fits(cfg.maxBatchBytes), files);
      Absent(Filter(TooBig(cfg.maxBatchBytes), files), history, x);
    }
  }

  /** Nothing is told of a call that only uses SMTP. */
  lemma NothingTold(files: seq<BookFile>, results: seq<DeliveryResult>)
    requires |files| == |results| && forall k :: 0 <= k < |results| ==> results[k].means == Smtp
    ensures StkTold([], files, results)
  {
  }

  /** What the channels took during a batch call, next to what it recorded and reported. */
  ghost predicate BatchBacked(told: seq<Entry>, files: seq<BookFile>, results: seq<DeliveryResult>,
                              stk0: seq<nat>, stk1: seq<nat>, smtp0: seq<nat>, smtp1: seq<nat>)
    requires |files| == |results|
  {
    && (forall x :: Count(stk1, x) >= Count(stk0, x) + Count(told, Entry(SendStk, Some(x))))
    && (forall x :: Count(smtp1, x) == Count(smtp0, x) + Count(OkIds(files, SmtpOnly(results)), x))
  }

  lemma CallIsBacked(files: seq<BookFile>, cfg: StkConfig, viaStk: bool, history: seq<Record>,
                     results: seq<DeliveryResult>, told: seq<Entry>,
                     stk0: seq<nat>, stk1: seq<nat>, smtp0: seq<nat>, smtp1: seq<nat>)
    requires NoDuplicates(IdsOf(files)) && |results| == |files|
    requires viaStk ==>
      && ReportedBy(files, cfg, history, results)
      && told == CallEntries(Filter(TooBig(cfg.maxBatchBytes), files), history)
      && stk1 == stk0 + StkIds(history) && smtp1 == smtp0 + SmtpIds(history)
    requires !viaStk ==>
      && told == [] && stk1 == stk0 && smtp1 == smtp0 + OkIds(files, results)
      && forall k :: 0 <= k < |results| ==> results[k].means == Smtp
    ensures BatchBacked(told, files, results, stk0, stk1, smtp0, smtp1)
  {
    hide Count, OkIds, ReportedBy, StkIds, SmtpIds, RecordedIds, CallEntries;
    var smtp: seq<nat> := if viaStk then SmtpIds(history) else OkIds(files, results);
    forall x: nat
      ensures Count(smtp1, x) == Count(smtp0, x) + Count(OkIds(files, SmtpOnly(results)), x)
    {
      SmtpAsReported(files, cfg, viaStk, history, results, smtp, x);
      CountAppend(smtp0, smtp, x);
    }
    forall x: nat
      ensures Count(stk1, x) >= Count(stk0, x) + Count(told, Entry(SendStk, Some(x)))
    {
      if viaStk {
        CallCount(Filter(TooBig(cfg.maxBatchBytes), files), history, Entry(SendStk, Some(x)));
        AcceptedOrRecorded(history);
        CountAppend(stk0, StkIds(history), x);
      } else {
        NoneCounted(Entry(SendStk, Some(x)));
      }
    }
  }

  lemma GateForReported(files: seq<BookFile>, results: seq<DeliveryResult>, smtp0: seq<nat>, smtp1: seq<nat>)
    requires |files| == |results| && NoDuplicates(IdsOf(files)) && smtp1 == smtp0
    requires forall x :: Count(smtp1, x) == Count(smtp0, x) + Count(OkIds(files, SmtpOnly(results)), x)
    ensures OkIds(files, SmtpOnly(results)) == []
  {
    var ids := OkIds(files, SmtpOnly(results));
    if ids != [] {
      assert Count(ids, ids[|ids| - 1]) > 0;
    }
  }

  /** `DeliverBatch` for different books, with what the tick needs to know about it. */
  method DeliverDistinct(net: Channels, log: EventLog, files: seq<BookFile>, cfg: Settings, configured: bool)
    returns (results: seq<DeliveryResult>, ghost told: seq<Entry>)
    requires NoDuplicates(IdsOf(files))
    modifies net, log
    ensures log.now >= old(log.now) && |results| == |files|
    ensures Logged(old(log.events), log.events, told, old(log.now), log.now) && StkTold(told, files, results)
    ensures BatchBacked(told, files, results, old(net.stkAccepted), net.stkAccepted,
                        old(net.smtpAccepted), net.smtpAccepted)
    ensures OkIds(files, SmtpOnly(results)) != [] ==> GatePassed(old(log.events), cfg.smtpCap, log.now)
    ensures SameFor(old(log.events), log.events, SendSmtp)
    ensures cfg.stk.dailyCap.Some? ==>
      GrowsWithin(old(log.events), log.events, SendStk, cfg.stk.dailyCap.value - 1 + |files|)
  {
    hide GrowsWithin, GatePassed, SameFor, Logged, StkTold, ReportedBy, OkIds, StkIds, SmtpIds, CallEntries, Count;
    ghost var viaStk, history;
    results, viaStk, history := DeliverBatch(net, log, files, cfg.stk, cfg.smtpCap, configured);
    told := if viaStk then CallEntries(Filter(TooBig(cfg.stk.maxBatchBytes), files), history) else [];
    if viaStk {
      SendsAreRecorded(files, cfg.stk, history, results);
    } else {
      LoggedNone(log.events, old(log.now), log.now);
      NothingTold(files, results);
    }
    CallIsBacked(files, cfg.stk, viaStk, history, results, told, old(net.stkAccepted), net.stkAccepted,
                 old(net.smtpAccepted), net.smtpAccepted);
    if net.smtpAccepted == old(net.smtpAccepted) {
      GateForReported(files, results, old(net.smtpAccepted), net.smtpAccepted);
    }
  }

  /** Batch mode: one delivery call for everything that waits, then one settling write per book. */
  method DeliverWaiting(repo: BookRepo, net: Channels, log: EventLog, books: seq<Book>, vs0: seq<Verdict>,
                        cfg: Settings, configured: bool, ghost t0: Table, ghost wss0: seq<seq<Write>>)
    returns (tally: Tally, ghost vs: seq<Verdict>, ghost wss: seq<seq<Write>>)
    requires |vs0| == |wss0| == |books| && Startable(t0.rows, books)
    requires Handled(t0, Now(repo), books, |books|, vs0, wss0)
    requires forall k :: 0 <= k < |vs0| ==> (Ended(vs0[k]) && vs0[k] != SentV) || vs0[k].NeedsDelivery?
    modifies repo, net, log
    ensures Onward(repo) && log.now >= old(log.now)
    ensures |vs| == |wss| == |books| && forall k :: 0 <= k < |vs| ==> Ended(vs[k])
    ensures forall k :: 0 <= k < |vs0| && Ended(vs0[k]) ==> vs[k] == vs0[k]
    ensures Handled(t0, Now(repo), books, |books|, vs, wss) && Matches(tally, vs)
    ensures Tells(old(log.events), log.events, old(log.now), log.now, repo.rows, TouchedIds(books, |books|))
    ensures BackedOut(old(Out(net, log)), Out(net, log), true)
    ensures CapsWithin(old(log.events), log.events, cfg, |books|)
  {
    hide Logged, SmtpEntries, Marked, Handled, Matches, Accounts, StkTold, BatchBacked, Count, OkIds, Tells;
    hide SettledUpTo, CapsWithin, GrowsWithin, SameFor, GatePassed, Backed, NoDuplicates;
    var waiting;
    waiting, tally := SetAside(vs0);
    WaitingFits(vs0, waiting);
    var files := FilesFor(books, vs0, waiting);
    FilesDistinct(books, vs0, waiting);
    var results := [];
    ghost var told := [];
    ghost var e0, started, stk0, smtp0 := log.events, log.now, net.stkAccepted, net.smtpAccepted;
    if files != [] {
      results, told := DeliverDistinct(net, log, files, cfg, configured);
    } else {
      NothingDelivered(log.events, log.now, net.stkAccepted, net.smtpAccepted, cfg);
    }
    ghost var e1, moment := log.events, log.now;
    tally, vs, wss := SettleAll(repo, log, books, waiting, results, tally, t0, vs0, wss0);
    SettledWaiting(vs0, vs, waiting, results);
    CapsAfterSettling(e0, e1, log.events, cfg, moment, log.now, files, results, |books|);
    StatusFollowsVerdict(t0, Now(repo), books, vs, wss);
    ghost var settled := SmtpEntries(files, results);
    BatchIsAudited(repo.rows, books, vs0, vs, waiting, results, told, settled);
    BatchIsBacked(files, results, told, stk0, net.stkAccepted, smtp0, net.smtpAccepted);
    LoggedMore(e0, e1, log.events, told, settled, started, moment, log.now);
    TellsOf(e0, log.events, told + settled, started, log.now, repo.rows, TouchedIds(books, |books|));
    BackedBy(e0, log.events, told + settled, started, log.now, stk0, net.stkAccepted, smtp0, net.smtpAccepted);
  }

  lemma NothingDelivered(events: seq<Event>, now: int, stk: seq<nat>, smtp: seq<nat>, cfg: Settings)
    ensures Logged(events, events, [], now, now) && StkTold([], [], [])
    ensures BatchBacked([], [], [], stk, stk, smtp, smtp)
    ensures OkIds([], SmtpOnly([])) == [] && SameFor(events, events, SendSmtp)
    ensures cfg.stk.dailyCap.Some? ==> GrowsWithin(events, events, SendStk, cfg.stk.dailyCap.value - 1 + 0)
  {
    LoggedNone(events, now, now);
  }

  lemma TellsOf(before: seq<Event>, after: seq<Event>, entries: seq<Entry>, from: int, to: int,
                rows: map<BookId, Row>, ids: set<BookId>)
    requires Logged(before, after, entries, from, to) && Audited(entries, rows, ids)
    ensures Tells(before, after, from, to, rows, ids)
  {
  }

  /** Each acceptance and each event of one batch call and its settling. */
  ghost predicate EntriesBacked(entries: seq<Entry>, stk0: seq<nat>, stk1: seq<nat>, smtp0: seq<nat>,
                                smtp1: seq<nat>)
  {
    && (forall id :: Count(smtp1, id) == Count(smtp0, id) + Count(entries, Entry(SendSmtp, Some(id))))
    && (forall id :: Count(stk1, id) >= Count(stk0, id) + Count(entries, Entry(SendStk, Some(id))))
  }

  lemma BackedBy(before: seq<Event>, after: seq<Event>, entries: seq<Entry>, from: int, to: int,
                 stk0: seq<nat>, stk1: seq<nat>, smtp0: seq<nat>, smtp1: seq<nat>)
    requires Logged(before, after, entries, from, to) && EntriesBacked(entries, stk0, stk1, smtp0, smtp1)
    ensures Backed(before, after, stk0, stk1, smtp0, smtp1, true)
  {
    hide Logged;
    AsAdded(before, after, entries, from, to);
  }

  lemma BatchIsBacked(files: seq<BookFile>, results: seq<DeliveryResult>, told: seq<Entry>,
                      stk0: seq<nat>, stk1: seq<nat>, smtp0: seq<nat>, smtp1: seq<nat>)
    requires |files| == |results| && StkTold(told, files, results)
    requires BatchBacked(told, files, results, stk0, stk1, smtp0, smtp1)
    ensures EntriesBacked(told + SmtpEntries(files, results), stk0, stk1, smtp0, smtp1)
  {
    hide Count, OkIds, SmtpOnly;
    var settled := SmtpEntries(files, results);
    forall id: nat
      ensures Count(smtp1, id) == Count(smtp0, id) + Count(told + settled, Entry(SendSmtp, Some(id)))
      ensures Count(stk1, id) >= Count(stk0, id) + Count(told + settled, Entry(SendStk, Some(id)))
    {
      CountAppend(told, settled, Entry(SendSmtp, Some(id)));
      CountAppend(told, settled, Entry(SendStk, Some(id)));
      ForIdsCount(SendSmtp, OkIds(files, SmtpOnly(results)), Entry(SendSmtp, Some(id)));
      ForIdsCount(SendSmtp, OkIds(files, SmtpOnly(results)), Entry(SendStk, Some(id)));
      assert Count(told, Entry(SendSmtp, Some(id))) == 0;
    }
  }

  /** Read book by book, what a batch call and its settling recorded is what the rows now say. */
  lemma BatchIsAudited(rows: map<BookId, Row>, books: seq<Book>, vs0: seq<Verdict>, vs: seq<Verdict>,
                       waiting: seq<nat>, results: seq<DeliveryResult>, told: seq<Entry>, settled: seq<Entry>)
    requires |vs0| == |vs| == |books| && |results| == |waiting| && AreWaiting(vs0, |vs0|, waiting)
    requires forall j, k :: 0 <= j < k < |books| ==> books[j].id != books[k].id
    requires forall k :: 0 <= k < |vs0| ==> (Ended(vs0[k]) && vs0[k] != SentV) || vs0[k].NeedsDelivery?
    requires forall k :: 0 <= k < |vs| ==> Ended(vs[k])
    requires forall k :: 0 <= k < |vs| ==> books[k].id in rows && rows[books[k].id].status == StatusOf(vs[k])
    requires SettledUpTo(vs0, vs, waiting, results, |waiting|) && Marked(rows, books, waiting, results, |waiting|)
    requires var files := FilesFor(books, vs0, waiting);
      StkTold(told, files, results) && settled == SmtpEntries(files, results)
    ensures Audited(told + settled, rows, TouchedIds(books, |books|))
  {
    hide Count, OkIds, SmtpOnly, StkTold, Marked, SettledUpTo, SmtpEntries;
    var files, ids := FilesFor(books, vs0, waiting), TouchedIds(books, |books|);
    FilesDistinct(books, vs0, waiting);
    forall k | 0 <= k < |books|
      ensures rows[books[k].id].status == Kindled ==> rows[books[k].id].sentMethod in {Some("stk"), Some("smtp")}
      ensures forall kind :: kind in {SendStk, SendSmtp} ==>
        Count(told + settled, Entry(kind, Some(books[k].id))) == Owed(kind, Some(books[k].id), rows, ids)
    {
      BookIsAudited(rows, books, vs0, vs, waiting, results, told, settled, k);
    }
    forall kind, book: Option<nat> | kind in {SendStk, SendSmtp}
      ensures Count(told + settled, Entry(kind, book)) == Owed(kind, book, rows, ids)
    {
      if book.None? || book.value !in ids {
        FilesAreBooks(books, vs0, waiting);
        CountOfCall(files, results, told, kind, book);
        StrangersUntold(files, results, told, kind, book);
      }
    }
  }

  lemma FilesAreBooks(books: seq<Book>, vs: seq<Verdict>, waiting: seq<nat>)
    requires |vs| == |books| && AreWaiting(vs, |vs|, waiting)
    ensures forall x :: x in IdsOf(FilesFor(books, vs, waiting)) ==> x in TouchedIds(books, |books|)
  {
  }

  lemma CountOfCall(files: seq<BookFile>, results: seq<DeliveryResult>, told: seq<Entry>, kind: Kind,
                    book: Option<nat>)
    requires |files| == |results|
    ensures Count(told + SmtpEntries(files, results), Entry(kind, book))
         == Count(told, Entry(kind, book))
            + if kind == SendSmtp && book.Some? then Count(OkIds(files, SmtpOnly(results)), book.value) else 0
  {
    hide Count, OkIds, SmtpOnly;
    CountAppend(told, SmtpEntries(files, results), Entry(kind, book));
    ForIdsCount(SendSmtp, OkIds(files, SmtpOnly(results)), Entry(kind, book));
  }

  lemma StrangersUntold(files: seq<BookFile>, results: seq<DeliveryResult>, told: seq<Entry>, kind: Kind,
                        book: Option<nat>)
    requires |files| == |results| && NoDuplicates(IdsOf(files)) && StkTold(told, files, results)
    requires kind in {SendStk, SendSmtp} && (book.None? || book.value !in IdsOf(files))
    ensures Count(told, Entry(kind, book)) == 0
    ensures book.Some? ==> Count(OkIds(files, SmtpOnly(results)), book.value) == 0
  {
    hide Count, OkIds, SmtpOnly;
    if book.Some? {
      SmtpOkCount(files, results, book.value);
    }
  }

  /** The same for one book of the tick. */
  lemma BookIsAudited(rows: map<BookId, Row>, books: seq<Book>, vs0: seq<Verdict>, vs: seq<Verdict>,
                      waiting: seq<nat>, results: seq<DeliveryResult>, told: seq<Entry>, settled: seq<Entry>, k: nat)
    requires |vs0| == |vs| == |books| && |results| == |waiting| && AreWaiting(vs0, |vs0|, waiting) && k < |books|
    requires NoDuplicates(IdsOf(FilesFor(books, vs0, waiting)))
    requires forall j, k :: 0 <= j < k < |books| ==> books[j].id != books[k].id
    requires (Ended(vs0[k]) && vs0[k] != SentV) || vs0[k].NeedsDelivery?
    requires Ended(vs[k]) && books[k].id in rows && rows[books[k].id].status == StatusOf(vs[k])
    requires SettledUpTo(vs0, vs, waiting, results, |waiting|) && Marked(rows, books, waiting, results, |waiting|)
    requires var files := FilesFor(books, vs0, waiting);
      StkTold(told, files, results) && settled == SmtpEntries(files, results)
    ensures rows[books[k].id].status == Kindled ==> rows[books[k].id].sentMethod in {Some("stk"), Some("smtp")}
    ensures forall kind :: kind in {SendStk, SendSmtp} ==>
      Count(told + settled, Entry(kind, Some(books[k].id)))
      == Owed(kind, Some(books[k].id), rows, TouchedIds(books, |books|))
  {
    hide Count, OkIds, SmtpOnly, SmtpEntries;
    var files, id := FilesFor(books, vs0, waiting), books[k].id;
    assert waiting[..|waiting|] == waiting && id in TouchedIds(books, |books|);
    CountOfCall(files, results, told, SendStk, Some(id));
    CountOfCall(files, results, told, SendSmtp, Some(id));
    if vs0[k].NeedsDelivery? {
      var a :| 0 <= a < |waiting| && waiting[a] == k;
      assert files[a].bookId == id && vs[waiting[a]] == Judged(results[a]);
      SmtpOkCount(files, results, id);
    } else {
      NotAFile(books, vs0, waiting, k);
      StrangersUntold(files, results, told, SendStk, Some(id));
      StrangersUntold(files, results, told, SendSmtp, Some(id));
    }
  }

  lemma NotAFile(books: seq<Book>, vs: seq<Verdict>, waiting: seq<nat>, k: nat)
    requires |vs| == |books| && AreWaiting(vs, |vs|, waiting) && k < |books| && !vs[k].NeedsDelivery?
    requires forall j, k :: 0 <= j < k < |books| ==> books[j].id != books[k].id
    ensures books[k].id !in IdsOf(FilesFor(books, vs, waiting))
  {
    var ids := IdsOf(FilesFor(books, vs, waiting));
    forall a | 0 <= a < |ids|
      ensures ids[a] != books[k].id
    {
      assert waiting[a] != k;
    }
  }

  lemma {:induction false} IncreasingFits(waiting: seq<nat>, n: nat)
    requires forall a :: 0 <= a < |waiting| ==> waiting[a] < n
    requires forall a, b :: 0 <= a < b < |waiting| ==> waiting[a] < waiting[b]
    ensures |waiting| <= n
  {
    if waiting != [] {
      var m := |waiting| - 1;
      IncreasingFits(waiting[..m], waiting[m]);
    }
  }

  lemma WaitingFits(vs: seq<Verdict>, waiting: seq<nat>)
    requires AreWaiting(vs, |vs|, waiting)
    ensures |waiting| <= |vs|
  {
    IncreasingFits(waiting, |vs|);
  }

  lemma SettledWaiting(vs0: seq<Verdict>, vs: seq<Verdict>, waiting: seq<nat>, results: seq<DeliveryResult>)
    requires |vs0| == |vs| && |results| == |waiting|
    requires forall k :: 0 <= k < |vs0| ==> Ended(vs0[k]) || vs0[k].NeedsDelivery?
    requires AreWaiting(vs0, |vs0|, waiting) && SettledUpTo(vs0, vs, waiting, results, |waiting|)
    ensures forall k :: 0 <= k < |vs| ==> Ended(vs[k])
    ensures forall k :: 0 <= k < |vs0| && Ended(vs0[k]) ==> vs[k] == vs0[k]
  {
    assert waiting[..|waiting|] == waiting;
    forall k | 0 <= k < |vs|
      ensures Ended(vs[k])
      ensures Ended(vs0[k]) ==> vs[k] == vs0[k]
    {
      if vs0[k].NeedsDelivery? {
        var a :| 0 <= a < |waiting| && waiting[a] == k;
      }
    }
  }

  lemma {:induction false} OkIdsFit(files: seq<BookFile>, results: seq<DeliveryResult>)
    requires |files| == |results|
    ensures |OkIds(files, results)| <= |files|
  {
    if files != [] {
      OkIdsFit(files[..|files| - 1], results[..|files| - 1]);
    }
  }

  lemma CapsAfterSettling(e0: seq<Event>, e1: seq<Event>, e2: seq<Event>, cfg: Settings, checked: int, now: int,
                          files: seq<BookFile>, results: seq<DeliveryResult>, m: nat)
    requires |files| == |results| <= m
    requires cfg.stk.dailyCap.Some? ==> GrowsWithin(e0, e1, SendStk, cfg.stk.dailyCap.value - 1 + |files|)
    requires SameFor(e0, e1, SendSmtp)
    requires Logged(e1, e2, SmtpEntries(files, results), checked, now)
    requires OkIds(files, SmtpOnly(results)) != [] ==> GatePassed(e0, cfg.smtpCap, checked)
    ensures CapsWithin(e0, e2, cfg, m)
  {
    hide GrowsWithin, SameFor, Logged, GrewBy, GatePassed, OkIds, OfKind;
    var ids := OkIds(files, SmtpOnly(results));
    OkIdsFit(files, SmtpOnly(results));
    ForIdsOfKind(SendSmtp, ids, SendSmtp);
    ForIdsOfKind(SendSmtp, ids, SendStk);
    LoggedGrows(e1, e2, SmtpEntries(files, results), checked, now, SendStk);
    LoggedGrows(e1, e2, SmtpEntries(files, results), checked, now, SendSmtp);
    if cfg.stk.dailyCap.Some? {
      var limit := cfg.stk.dailyCap.value - 1 + |files|;
      SameForGrowsWithin(e1, e2, SendStk, limit);
      GrowsWithinChain(e0, e1, e2, SendStk, limit);
      GrowsWithinMore(e0, e2, SendStk, limit, cfg.stk.dailyCap.value - 1 + m);
    }
    if cfg.smtpCap > 0 {
      var limit := cfg.smtpCap - 1 + |ids|;
      SameForGrowsWithin(e0, e1, SendSmtp, limit);
      if ids != [] {
        SameGate(e0, e1, cfg.smtpCap, checked);
        GateIsCount(e1, cfg.smtpCap, checked);
        OneCheckManySends(e1, e2, SendSmtp, cfg.smtpCap, checked, |ids|);
      } else {
        SameForGrowsWithin(e1, e2, SendSmtp, limit);
      }
      GrowsWithinChain(e0, e1, e2, SendSmtp, limit);
      GrowsWithinMore(e0, e2, SendSmtp, limit, cfg.smtpCap - 1 + m);
    }
  }

  lemma GateIsCount(events: seq<Event>, smtpCap: int, now: int)
    requires GatePassed(events, smtpCap, now) && smtpCap > 0
    ensures CountSince(events, SendSmtp, now - DAY) < smtpCap
  {
  }
}
