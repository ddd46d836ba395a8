/** `process_queue`: one whole tick, and what a sequence of serial ticks does to the queue. */
module TickRun {
  import opened Prelude
  import opened BookRows
  import opened Quota
  import opened Router
  import opened Worker
  import opened Pipeline
  import opened Settling

  // What one tick does to the table.

  /** Every pending book has left the queue or burnt one attempt; no other row has changed. */
  ghost predicate TickEffect(rows0: map<BookId, Row>, rows: map<BookId, Row>, maxAttempts: int) {
    && rows.Keys == rows0.Keys
    && (forall id :: id in rows0 && !IsPending(rows0[id], maxAttempts) ==> rows[id] == rows0[id])
    && (forall id :: id in rows0 && IsPending(rows0[id], maxAttempts) ==> Advanced(rows0[id], rows[id]))
  }

  predicate Advanced(before: Row, after: Row) {
    || (after.status in {Kindled, Skipped, NeedsReview} && after.attempts == before.attempts)
    || (after.status == Failed && after.attempts == before.attempts + 1)
  }

  function IdsWith(rows: map<BookId, Row>, ids: set<BookId>, s: Status): set<BookId> {
    set id | id in ids && id in rows && rows[id].status == s
  }

  /** The books whose verdict is `v`. */
  function BooksWith(books: seq<Book>, vs: seq<Verdict>, v: Verdict): (ids: set<BookId>)
    requires |vs| <= |books|
    ensures forall id :: id in ids ==> exists k :: 0 <= k < |vs| && vs[k] == v && books[k].id == id
    ensures forall k :: 0 <= k < |vs| && vs[k] == v ==> books[k].id in ids
    decreases |vs|
  {
    if vs == [] then {}
    else
      var n := |vs| - 1;
      var front := BooksWith(books, vs[..n], v);
      assert forall k :: 0 <= k < n ==> vs[..n][k] == vs[k];
      if vs[n] == v then front + {books[n].id} else front
  }

  lemma {:induction false} BooksWithCount(books: seq<Book>, vs: seq<Verdict>, v: Verdict)
    requires |vs| <= |books|
    requires forall j, k :: 0 <= j < k < |books| ==> books[j].id != books[k].id
    ensures |BooksWith(books, vs, v)| == Count(vs, v)
    decreases |vs|
  {
    if vs != [] {
      var n := |vs| - 1;
      BooksWithCount(books, vs[..n], v);
      assert books[n].id !in BooksWith(books, vs[..n], v);
    }
  }

  lemma TallyTellsTheTruth(rows0: map<BookId, Row>, rows: map<BookId, Row>, books: seq<Book>, vs: seq<Verdict>,
                           maxAttempts: int, v: Verdict)
    requires IsPendingListing(rows0, maxAttempts, books)
    requires |vs| == |books| && Ended(v) && forall k :: 0 <= k < |vs| ==> Ended(vs[k])
    requires forall k :: 0 <= k < |vs| ==> books[k].id in rows && rows[books[k].id].status == StatusOf(vs[k])
    ensures |IdsWith(rows, PendingIds(rows0, maxAttempts), StatusOf(v))| == Count(vs, v)
  {
    hide IsPending, Count;
    BooksWithCount(books, vs, v);
    var ids, s := PendingIds(rows0, maxAttempts), StatusOf(v);
    forall id
      ensures id in IdsWith(rows, ids, s) <==> id in BooksWith(books, vs, v)
    {
      if id in IdsWith(rows, ids, s) {
        assert id in (set i | 0 <= i < |books| :: books[i].id);
        var k :| 0 <= k < |books| && books[k].id == id;
        assert vs[k] == v;
      }
      if id in BooksWith(books, vs, v) {
        var k :| 0 <= k < |vs| && vs[k] == v && books[k].id == id;
        assert id in (set i | 0 <= i < |books| :: books[i].id);
      }
    }
    assert IdsWith(rows, ids, s) == BooksWith(books, vs, v);
  }

  lemma HandledIsTickEffect(t0: Table, t: Table, books: seq<Book>, vs: seq<Verdict>, wss: seq<seq<Write>>,
                            maxAttempts: int)
    requires IsPendingListing(t0.rows, maxAttempts, books)
    requires |vs| == |wss| == |books| && forall k :: 0 <= k < |vs| ==> Ended(vs[k])
    requires Handled(t0, t, books, |books|, vs, wss)
    ensures TickEffect(t0.rows, t.rows, maxAttempts)
  {
    var ids := PendingIds(t0.rows, maxAttempts);
    assert TouchedIds(books, |books|) == ids;
    forall id | id in t0.rows || id in t.rows
      ensures id in t.rows && id in t0.rows
      ensures if IsPending(t0.rows[id], maxAttempts) then Advanced(t0.rows[id], t.rows[id])
              else t.rows[id] == t0.rows[id]
    {
      if id in ids {
        var k :| 0 <= k < |books| && books[k].id == id;
        assert BookDone(t0, t, books[k].id, vs[k], wss[k]);
      } else {
        assert Untouched(t0, t, id);
      }
    }
  }

  /** Every book that is kindled now was accepted during this tick, by the channel on its row. */
  ghost predicate KindledWasAccepted(rows: map<BookId, Row>, ids: set<BookId>, e0: Effects, e: Effects) {
    forall id :: id in IdsWith(rows, ids, Kindled) ==>
      if rows[id].sentMethod == Some("stk") then Count(e.stk, id) > Count(e0.stk, id)
      else rows[id].sentMethod == Some("smtp") && Count(e.smtp, id) == Count(e0.smtp, id) + 1
  }

  /** A kindled book is owed an event, and an event is backed by an acceptance. */
  lemma KindledIsBacked(e0: Effects, e: Effects, from: int, to: int, rows: map<BookId, Row>, ids: set<BookId>,
                        lossy: bool)
    requires Tells(e0.events, e.events, from, to, rows, ids) && BackedOut(e0, e, lossy)
    ensures KindledWasAccepted(rows, ids, e0, e)
  {
    hide Count, Logged, Added;
    forall id | id in IdsWith(rows, ids, Kindled)
      ensures if rows[id].sentMethod == Some("stk") then Count(e.stk, id) > Count(e0.stk, id)
              else rows[id].sentMethod == Some("smtp") && Count(e.smtp, id) == Count(e0.smtp, id) + 1
    {
      var told := Added(e0.events, e.events);
      assert Count(told, Entry(SendStk, Some(id))) == Owed(SendStk, Some(id), rows, ids);
      assert Count(told, Entry(SendSmtp, Some(id))) == Owed(SendSmtp, Some(id), rows, ids);
    }
  }

  /** The tally, read off the table: how many of the pending books are now where. */
  ghost predicate TrueTally(t: Tally, rows: map<BookId, Row>, pending: set<BookId>) {
    && t.sent == |IdsWith(rows, pending, Kindled)|
    && t.failed == |IdsWith(rows, pending, Failed)|
    && t.needsReview == |IdsWith(rows, pending, NeedsReview)|
    && t.skipped == |IdsWith(rows, pending, Skipped)|
    && t.deferred == 0 && t.inFlight == 0
    && t.Total() == |pending|
  }

  lemma TallyIsTrue(t0: Table, t: Table, books: seq<Book>, vs: seq<Verdict>, wss: seq<seq<Write>>, maxAttempts: int,
                    tally: Tally)
    requires IsPendingListing(t0.rows, maxAttempts, books)
    requires |vs| == |wss| == |books| && forall k :: 0 <= k < |vs| ==> Ended(vs[k])
    requires Handled(t0, t, books, |books|, vs, wss) && Matches(tally, vs)
    ensures TrueTally(tally, t.rows, PendingIds(t0.rows, maxAttempts))
  {
    hide Handled, IsPendingListing, IsPending, PendingIds, IdsWith;
    StatusFollowsVerdict(t0, t, books, vs, wss);
    TallyTellsTheTruth(t0.rows, t.rows, books, vs, maxAttempts, SentV);
    TallyTellsTheTruth(t0.rows, t.rows, books, vs, maxAttempts, FailedV);
    TallyTellsTheTruth(t0.rows, t.rows, books, vs, maxAttempts, NeedsReviewV);
    TallyTellsTheTruth(t0.rows, t.rows, books, vs, maxAttempts, SkippedV);
    AllEndedAllCounted(vs);
    PendingCount(t0.rows, maxAttempts, books);
  }

  lemma PendingCount(rows: map<BookId, Row>, maxAttempts: int, books: seq<Book>)
    requires IsPendingListing(rows, maxAttempts, books)
    ensures |PendingIds(rows, maxAttempts)| == |books|
  {
    ListingSize(rows, maxAttempts, books, |books|);
    assert TouchedIds(books, |books|) == PendingIds(rows, maxAttempts);
  }

  lemma {:induction false} ListingSize(rows: map<BookId, Row>, maxAttempts: int, books: seq<Book>, n: nat)
    requires n <= |books| && forall j, k :: 0 <= j < k < |books| ==> books[j].id != books[k].id
    ensures |TouchedIds(books, n)| == n
    decreases n
  {
    if n > 0 {
      ListingSize(rows, maxAttempts, books, n - 1);
      assert TouchedIds(books, n) == TouchedIds(books, n - 1) + {books[n - 1].id};
    }
  }

  /** Every pending book was claimed once, kept in flight, and handed back by its last UPDATE; no other book
      was written to. */
  ghost predicate AllHandedBack(t0: Table, t: Table, ids: set<BookId>) {
    && (forall id :: id in ids ==>
          && |Earlier(t.trace, id)| >= |Earlier(t0.trace, id)|
          && Earlier(t.trace, id)[..|Earlier(t0.trace, id)|] == Earlier(t0.trace, id)
          && HandedBack(Earlier(t.trace, id)[|Earlier(t0.trace, id)|..]))
    && (forall id :: id !in ids ==> Earlier(t.trace, id) == Earlier(t0.trace, id))
  }

  lemma HandledIsHandedBack(t0: Table, t: Table, books: seq<Book>, vs: seq<Verdict>, wss: seq<seq<Write>>,
                            maxAttempts: int)
    requires IsPendingListing(t0.rows, maxAttempts, books)
    requires |vs| == |wss| == |books| && forall k :: 0 <= k < |vs| ==> Ended(vs[k])
    requires Handled(t0, t, books, |books|, vs, wss)
    ensures AllHandedBack(t0, t, PendingIds(t0.rows, maxAttempts))
  {
    forall id | id in PendingIds(t0.rows, maxAttempts)
      ensures |Earlier(t.trace, id)| >= |Earlier(t0.trace, id)|
      ensures Earlier(t.trace, id)[..|Earlier(t0.trace, id)|] == Earlier(t0.trace, id)
      ensures HandedBack(Earlier(t.trace, id)[|Earlier(t0.trace, id)|..])
    {
      assert id in (set i | 0 <= i < |books| :: books[i].id);
      var k :| 0 <= k < |books| && books[k].id == id;
      assert BookDone(t0, t, books[k].id, vs[k], wss[k]);
      assert Earlier(t.trace, id)[|Earlier(t0.trace, id)|..] == wss[k];
    }
    assert TouchedIds(books, |books|) == PendingIds(t0.rows, maxAttempts);
    forall id | id !in PendingIds(t0.rows, maxAttempts)
      ensures Earlier(t.trace, id) == Earlier(t0.trace, id)
    {
      assert Untouched(t0, t, id);
    }
  }

  /** The two ways of working through the snapshot. */
  method WorkThrough(repo: BookRepo, net: Channels, log: EventLog, books: seq<Book>, cfg: Settings,
                     outside: seq<Outside>, useBatch: bool, configured: bool)
    returns (tally: Tally, ghost vs: seq<Verdict>, ghost wss: seq<seq<Write>>)
    requires |outside| == |books|
    requires IsPendingListing(repo.rows, cfg.maxAttempts, books)
    modifies repo, net, log
    ensures Onward(repo) && log.now >= old(log.now)
    ensures |vs| == |wss| == |books| && forall k :: 0 <= k < |vs| ==> Ended(vs[k])
    ensures Handled(old(Now(repo)), Now(repo), books, |books|, vs, wss) && Matches(tally, vs)
    ensures Tells(old(log.events), log.events, old(log.now), log.now, repo.rows,
                  PendingIds(old(repo.rows), cfg.maxAttempts))
    ensures BackedOut(old(Out(net, log)), Out(net, log), useBatch)
    ensures CapsWithin(old(log.events), log.events, cfg, if useBatch then |books| else 1)
  {
    hide Tells, Handled, Matches, Accounts, CapsWithin, BackedOut;
    ghost var t0 := Now(repo);
    ListedIsStartable(repo.rows, cfg.maxAttempts, books);
    var firstVerdicts;
    ghost var wss0;
    firstVerdicts, wss0 := RunBooks(repo, net, log, books, cfg, outside, useBatch);
    if useBatch {
      ghost var moment := log.now;
      tally, vs, wss := DeliverWaiting(repo, net, log, books, firstVerdicts, cfg, configured, t0, wss0);
      TellsSooner(old(log.events), log.events, old(log.now), moment, log.now, repo.rows, TouchedIds(books, |books|));
    } else {
      var waiting;
      waiting, tally := SetAside(firstVerdicts);
      vs, wss := firstVerdicts, wss0;
    }
  }

  lemma TellsSooner(before: seq<Event>, after: seq<Event>, sooner: int, from: int, to: int,
                    rows: map<BookId, Row>, ids: set<BookId>)
    requires Tells(before, after, from, to, rows, ids) && sooner <= from
    ensures Tells(before, after, sooner, to, rows, ids)
  {
    hide Audited;
  }

  lemma ListedIsStartable(rows: map<BookId, Row>, maxAttempts: int, books: seq<Book>)
    requires IsPendingListing(rows, maxAttempts, books)
    ensures Startable(rows, books) && TouchedIds(books, |books|) == PendingIds(rows, maxAttempts)
  {
    forall k | 0 <= k < |books|
      ensures books[k].id in rows && IsPending(rows[books[k].id], maxAttempts)
    {
      assert books[k].id in (set i | 0 <= i < |books| :: books[i].id);
      assert books[k].id in PendingIds(rows, maxAttempts);
    }
  }

  /** One tick of `process_queue`, both modes. */
  method ProcessQueue(repo: BookRepo, net: Channels, log: EventLog, cfg: Settings,
                      outsideFor: BookId -> Outside, useBatch: bool, configured: bool)
    returns (tally: Tally, ghost swept: Table, ghost sweptAt: int)
    modifies repo, net, log
    ensures old(repo.now) <= sweptAt <= repo.now && log.now >= old(log.now)
    ensures swept == Table(Sweep(old(repo.rows), cfg.staleMinutes, sweptAt), old(repo.trace))
    ensures repo.base == Image(swept.rows, swept.trace, sweptAt) && repo.Journaled()
    ensures TickEffect(swept.rows, repo.rows, cfg.maxAttempts)
    ensures TrueTally(tally, repo.rows, PendingIds(swept.rows, cfg.maxAttempts))
    ensures AllHandedBack(swept, Now(repo), PendingIds(swept.rows, cfg.maxAttempts))
    ensures Tells(old(log.events), log.events, old(log.now), log.now, repo.rows,
                  PendingIds(swept.rows, cfg.maxAttempts))
    ensures BackedOut(old(Out(net, log)), Out(net, log), useBatch)
    ensures KindledWasAccepted(repo.rows, PendingIds(swept.rows, cfg.maxAttempts), old(Out(net, log)), Out(net, log))
    ensures CapsWithin(old(log.events), log.events, cfg,
                       if useBatch then |PendingIds(swept.rows, cfg.maxAttempts)| else 1)
  {
    hide Handled, Matches, TickEffect, TrueTally, AllHandedBack, KindledWasAccepted, CapsWithin, IsPendingListing;
    hide Accounts, IsPending, Tells, BackedOut;
    var reset := repo.ResetZombies(cfg.staleMinutes);
    swept, sweptAt := Now(repo), repo.now;
    var books := repo.Pending(cfg.maxAttempts);
    var outside := seq(|books|, i requires 0 <= i < |books| => outsideFor(books[i].id));
    ghost var vs, wss;
    tally, vs, wss := WorkThrough(repo, net, log, books, cfg, outside, useBatch, configured);
    HandledIsTickEffect(swept, Now(repo), books, vs, wss, cfg.maxAttempts);
    HandledIsHandedBack(swept, Now(repo), books, vs, wss, cfg.maxAttempts);
    TallyIsTrue(swept, Now(repo), books, vs, wss, cfg.maxAttempts, tally);
    PendingCount(swept.rows, cfg.maxAttempts, books);
    KindledIsBacked(old(Out(net, log)), Out(net, log), old(log.now), log.now, repo.rows,
                    PendingIds(swept.rows, cfg.maxAttempts), useBatch);
  }

  // Serial ticks drain the queue.

  /** Between two ticks time passes and new books may be enrolled; nothing else touches the table. */
  ghost predicate OnlyEnrolled(rows: map<BookId, Row>, rows': map<BookId, Row>) {
    forall id :: id in rows ==> id in rows' && rows'[id] == rows[id]
  }

  /** One serial tick, with its sweep. */
  ghost predicate SerialTick(rows: map<BookId, Row>, rows': map<BookId, Row>, staleMinutes: int, maxAttempts: int) {
    exists at: int :: TickEffect(Sweep(rows, staleMinutes, at), rows', maxAttempts)
  }

  /** The table before and after one tick. */
  datatype Round = Round(before: map<BookId, Row>, after: map<BookId, Row>)

  ghost predicate SerialRun(rounds: seq<Round>, staleMinutes: int, maxAttempts: int) {
    && (forall i :: 0 <= i < |rounds| ==> SerialTick(rounds[i].before, rounds[i].after, staleMinutes, maxAttempts))
    && (forall i, j :: 0 <= i < j < |rounds| && j == i + 1 ==> OnlyEnrolled(rounds[i].after, rounds[j].before))
  }

  lemma TickProgress(rows: map<BookId, Row>, rows': map<BookId, Row>, staleMinutes: int, maxAttempts: int, id: BookId)
    requires SerialTick(rows, rows', staleMinutes, maxAttempts)
    requires id in rows && !InFlight(rows[id].status)
    ensures id in rows' && !InFlight(rows'[id].status)
    ensures if IsPending(rows[id], maxAttempts) then Advanced(rows[id], rows'[id]) else rows'[id] == rows[id]
  {
    var at: int :| TickEffect(Sweep(rows, staleMinutes, at), rows', maxAttempts);
    assert Sweep(rows, staleMinutes, at)[id] == rows[id];
  }

  lemma {:induction false} AfterTicks(rounds: seq<Round>, staleMinutes: int, maxAttempts: int, n: nat, id: BookId)
    requires SerialRun(rounds, staleMinutes, maxAttempts) && n < |rounds|
    requires id in rounds[0].before && !InFlight(rounds[0].before[id].status)
    ensures id in rounds[n].after && !InFlight(rounds[n].after[id].status)
    ensures IsPending(rounds[n].after[id], maxAttempts) ==> rounds[n].after[id].attempts >= n + 1
    decreases n
  {
    if n > 0 {
      AfterTicks(rounds, staleMinutes, maxAttempts, n - 1, id);
      assert OnlyEnrolled(rounds[n - 1].after, rounds[n].before);
    }
    assert SerialTick(rounds[n].before, rounds[n].after, staleMinutes, maxAttempts);
    TickProgress(rounds[n].before, rounds[n].after, staleMinutes, maxAttempts, id);
  }

  /** With serial ticks and no resets, a book that was not in flight at the start is no longer pending
      after `maxAttempts` ticks, however many books are enrolled meanwhile. */
  lemma QueueDrains(rounds: seq<Round>, staleMinutes: int, maxAttempts: int, n: nat, id: BookId)
    requires SerialRun(rounds, staleMinutes, maxAttempts) && n < |rounds| && n + 1 >= maxAttempts
    requires id in rounds[0].before && !InFlight(rounds[0].before[id].status)
    ensures id in rounds[n].after && id !in PendingIds(rounds[n].after, maxAttempts)
  {
    AfterTicks(rounds, staleMinutes, maxAttempts, n, id);
  }
}
