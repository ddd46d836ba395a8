/** One tick of the queue: sweep, snapshot, work through the books, deliver, tally. */
module Pipeline {
  import opened Prelude
  import opened BookRows
  import opened Quota
  import opened Router
  import opened Worker

  function TouchedIds(books: seq<Book>, n: nat): set<BookId>
    requires n <= |books|
  {
    set k | 0 <= k < n :: books[k].id
  }

  /** Books a serial tick may start on: different rows, all of them up for grabs. */
  ghost predicate Startable(rows: map<BookId, Row>, books: seq<Book>) {
    && (forall k :: 0 <= k < |books| ==> books[k].id in rows && Claimable(rows[books[k].id].status))
    && (forall i, k :: 0 <= i < k < |books| ==> books[i].id != books[k].id)
  }

  /** Every UPDATE issued for the book so far follows the worker's discipline. */
  predicate Disciplined(v: Verdict, ws: seq<Write>) {
    if Ended(v) then HandedBack(ws) else Holding(ws)
  }

  /** Rows and traces of the table at one moment. */
  datatype Table = Table(rows: map<BookId, Row>, trace: map<BookId, seq<Write>>)

  ghost function Now(repo: BookRepo): Table
    reads repo
  {
    Table(repo.rows, repo.trace)
  }

  predicate BookDone(t0: Table, t: Table, id: BookId, v: Verdict, ws: seq<Write>) {
    && id in t0.rows && id in t.rows
    && Outcome(v, t0.rows[id], t.rows[id])
    && Earlier(t.trace, id) == Earlier(t0.trace, id) + ws
    && Disciplined(v, ws)
  }

  predicate Untouched(t0: Table, t: Table, id: BookId) {
    && (id in t.rows <==> id in t0.rows)
    && (id in t.rows ==> t.rows[id] == t0.rows[id])
    && Earlier(t.trace, id) == Earlier(t0.trace, id)
  }

  /** The first `n` books have been dealt with, the rest of the table is as it was. */
  ghost predicate Handled(t0: Table, t: Table, books: seq<Book>, n: nat, vs: seq<Verdict>, wss: seq<seq<Write>>)
    requires n <= |books| && |vs| == n && |wss| == n
  {
    && (forall k :: 0 <= k < n ==> BookDone(t0, t, books[k].id, vs[k], wss[k]))
    && (forall j :: j !in TouchedIds(books, n) ==> Untouched(t0, t, j))
  }

  /** What has left the building: the channels' acceptances and the audit log. */
  datatype Effects = Effects(stk: seq<nat>, smtp: seq<nat>, events: seq<Event>)

  ghost function Out(net: Channels, log: EventLog): Effects
    reads net, log
  {
    Effects(net.stkAccepted, net.smtpAccepted, log.events)
  }

  ghost predicate BackedOut(e0: Effects, e: Effects, lossy: bool) {
    Backed(e0.events, e.events, e0.stk, e.stk, e0.smtp, e.smtp, lossy)
  }

  lemma BackedNext(a: Effects, b: Effects, c: Effects, lossy: bool)
    requires BackedOut(a, b, lossy) && BackedOut(b, c, lossy)
    ensures BackedOut(a, c, lossy)
  {
    hide Count;
    var first, second := Added(a.events, b.events), Added(b.events, c.events);
    AddedMore(a.events, b.events, c.events);
    forall id: nat, kind
      ensures Count(first + second, Entry(kind, Some(id)))
           == Count(first, Entry(kind, Some(id))) + Count(second, Entry(kind, Some(id)))
    {
      CountAppend(first, second, Entry(kind, Some(id)));
    }
  }

  lemma AddedMore(a: seq<Event>, b: seq<Event>, c: seq<Event>)
    requires |a| <= |b| <= |c| && b[..|a|] == a && c[..|b|] == b
    ensures c[..|a|] == a && Added(a, c) == Added(a, b) + Added(b, c)
  {
    assert c[..|a|] == c[..|b|][..|a|];
    assert forall i :: |a| <= i < |b| ==> c[i] == c[..|b|][i];
  }

  /** A crash is caught, logged and turned into a failed attempt. */
  method RunOne(repo: BookRepo, net: Channels, log: EventLog, book: Book, cfg: Settings, o: Outside, batchMode: bool)
    returns (v: Verdict, ghost ws: seq<Write>)
    requires book.id in repo.rows && Claimable(repo.rows[book.id].status)
    modifies repo, net, log
    ensures Onward(repo) && log.now >= old(log.now)
    ensures OnlyBook(old(Now(repo)), Now(repo), book.id) && BookDone(old(Now(repo)), Now(repo), book.id, v, ws)
    ensures Ended(v) || v.NeedsDelivery?
    ensures batchMode ==> v != SentV && log.events == old(log.events)
    ensures !batchMode ==> !v.NeedsDelivery?
    ensures batchMode ==> net.stkAccepted == old(net.stkAccepted) && net.smtpAccepted == old(net.smtpAccepted)
    ensures CapsKept(old(log.events), log.events, cfg)
    ensures Tells(old(log.events), log.events, old(log.now), log.now, repo.rows, {book.id})
    ensures BackedOut(old(Out(net, log)), Out(net, log), false)
  {
    hide Tells, CapsWithin, Accounts, Backed;
    v, ws := ProcessOne(repo, net, log, book, cfg, o, batchMode);
    if v == Raised {
      ghost var rows0, trace0 := old(repo.rows), old(repo.trace);
      assert AtWork(repo, book.id, rows0, trace0, ws);
      ghost var rows := repo.rows;
      ws := Finish(repo, book.id, SetFailed, FailedV, rows0, trace0, ws);
      StillNothingOwed(old(log.events), log.events, old(log.now), log.now, rows, repo.rows, book.id);
      v := FailedV;
    }
  }

  lemma StillNothingOwed(before: seq<Event>, after: seq<Event>, from: int, to: int, rows: map<BookId, Row>,
                         rows': map<BookId, Row>, id: BookId)
    requires Tells(before, after, from, to, rows, {id})
    requires id in rows && id in rows' && rows[id].status != Kindled && rows'[id].status != Kindled
    ensures Tells(before, after, from, to, rows', {id})
  {
    hide Logged;
    forall kind, book: Option<nat> | kind in {SendStk, SendSmtp}
      ensures Count(Added(before, after), Entry(kind, book)) == Owed(kind, book, rows', {id})
    {
      assert Count(Added(before, after), Entry(kind, book)) == Owed(kind, book, rows, {id});
    }
  }

  lemma NothingOwedYet(events: seq<Event>, now: int, rows: map<BookId, Row>)
    ensures Tells(events, events, now, now, rows, {})
  {
    LoggedNone(events, now, now);
  }

  /** The audits of two stretches over different books add up. */
  lemma TellsNext(a: seq<Event>, b: seq<Event>, c: seq<Event>, from: int, middle: int, to: int,
                  rows: map<BookId, Row>, rows': map<BookId, Row>, ids: set<BookId>, id: BookId)
    requires from <= middle <= to && id !in ids
    requires Tells(a, b, from, middle, rows, ids) && Tells(b, c, middle, to, rows', {id})
    requires forall j :: j in ids ==> (j in rows <==> j in rows') && (j in rows ==> rows'[j] == rows[j])
    ensures Tells(a, c, from, to, rows', ids + {id})
  {
    hide Logged, Added, Count;
    LoggedMore(a, b, c, Added(a, b), Added(b, c), from, middle, to);
    AsAdded(a, c, Added(a, b) + Added(b, c), from, to);
    forall kind, book: Option<nat> | kind in {SendStk, SendSmtp}
      ensures Count(Added(a, c), Entry(kind, book)) == Owed(kind, book, rows', ids + {id})
    {
      CountAppend(Added(a, b), Added(b, c), Entry(kind, book));
      assert Count(Added(a, b), Entry(kind, book)) == Owed(kind, book, rows, ids);
      assert Count(Added(b, c), Entry(kind, book)) == Owed(kind, book, rows', {id});
    }
  }

  /** Only the row and the trace of `id` differ. */
  predicate OnlyBook(t: Table, t': Table, id: BookId) {
    id in t.rows && id in t'.rows && t'.rows == t.rows[id := t'.rows[id]]
    && id in t'.trace && t'.trace == t.trace[id := t'.trace[id]]
  }

  lemma HandledNext(t0: Table, t: Table, t': Table, books: seq<Book>, n: nat,
                    vs: seq<Verdict>, wss: seq<seq<Write>>, v: Verdict, ws: seq<Write>)
    requires n < |books| && |vs| == n && |wss| == n
    requires forall k :: 0 <= k < n ==> books[k].id != books[n].id
    requires Handled(t0, t, books, n, vs, wss)
    requires OnlyBook(t, t', books[n].id) && BookDone(t, t', books[n].id, v, ws)
    ensures Handled(t0, t', books, n + 1, vs + [v], wss + [ws])
  {
    var id := books[n].id;
    assert TouchedIds(books, n + 1) == TouchedIds(books, n) + {id};
    assert id !in TouchedIds(books, n);
    assert Untouched(t0, t, id);
    forall k | 0 <= k < n + 1
      ensures BookDone(t0, t', books[k].id, (vs + [v])[k], (wss + [ws])[k])
    {
      if k < n {
        assert BookDone(t0, t, books[k].id, vs[k], wss[k]);
      }
    }
    forall j | j !in TouchedIds(books, n + 1)
      ensures Untouched(t0, t', j)
    {
      assert Untouched(t0, t, j);
    }
  }

  ghost predicate SoFar(e0: Effects, e: Effects, books: seq<Book>, vs: seq<Verdict>, cfg: Settings, batchMode: bool)
    requires |books| == |vs|
  {
    && (forall k :: 0 <= k < |vs| ==> Ended(vs[k]) || (batchMode && vs[k].NeedsDelivery?))
    && (batchMode ==> e == e0 && forall k :: 0 <= k < |vs| ==> vs[k] != SentV)
    && BackedOut(e0, e, false)
    && CapsKept(e0.events, e.events, cfg)
  }

  lemma StillClaimable(t0: Table, t: Table, books: seq<Book>, n: nat, vs: seq<Verdict>, wss: seq<seq<Write>>)
    requires n < |books| && Startable(t0.rows, books) && |vs| == n && |wss| == n
    requires Handled(t0, t, books, n, vs, wss)
    ensures books[n].id in t.rows && Claimable(t.rows[books[n].id].status)
    ensures forall k :: 0 <= k < n ==> books[k].id != books[n].id
  {
    assert books[n].id !in TouchedIds(books, n);
    assert Untouched(t0, t, books[n].id);
  }

  lemma SoFarNext(e0: Effects, e: Effects, e': Effects, books: seq<Book>, n: nat, vs: seq<Verdict>, v: Verdict,
                  cfg: Settings, batchMode: bool)
    requires n < |books| && |vs| == n && SoFar(e0, e, books[..n], vs, cfg, batchMode)
    requires Ended(v) || (batchMode && v.NeedsDelivery?)
    requires batchMode ==> e' == e && v != SentV
    requires BackedOut(e, e', false) && CapsKept(e.events, e'.events, cfg)
    ensures SoFar(e0, e', books[..n + 1], vs + [v], cfg, batchMode)
  {
    hide GrowsWithin, BackedOut;
    BackedNext(e0, e, e', false);
    CapsChain(e0.events, e.events, e'.events, cfg, 1);
  }

  method RunNext(repo: BookRepo, net: Channels, log: EventLog, books: seq<Book>, i: nat, cfg: Settings,
                 o: Outside, batchMode: bool,
                 ghost t0: Table, ghost e0: Effects, ghost now0: int, ghost vs: seq<Verdict>,
                 ghost wss: seq<seq<Write>>)
    returns (v: Verdict, ghost ws: seq<Write>)
    requires i < |books| && Startable(t0.rows, books)
    requires |vs| == i && |wss| == i
    requires Handled(t0, Now(repo), books, i, vs, wss)
    requires SoFar(e0, Out(net, log), books[..i], vs, cfg, batchMode)
    requires now0 <= log.now && Tells(e0.events, log.events, now0, log.now, repo.rows, TouchedIds(books, i))
    modifies repo, net, log
    ensures Onward(repo) && log.now >= old(log.now)
    ensures Handled(t0, Now(repo), books, i + 1, vs + [v], wss + [ws])
    ensures SoFar(e0, Out(net, log), books[..i + 1], vs + [v], cfg, batchMode)
    ensures Tells(e0.events, log.events, now0, log.now, repo.rows, TouchedIds(books, i + 1))
  {
    hide Handled, SoFar, OnlyBook, BookDone, Tells, CapsWithin, Accounts;
    ghost var t, e, moment := Now(repo), Out(net, log), log.now;
    StillClaimable(t0, t, books, i, vs, wss);
    v, ws := RunOne(repo, net, log, books[i], cfg, o, batchMode);
    HandledNext(t0, t, Now(repo), books, i, vs, wss, v, ws);
    SoFarNext(e0, e, Out(net, log), books, i, vs, v, cfg, batchMode);
    OthersStay(t, Now(repo), books, i);
    TellsNext(e0.events, e.events, log.events, now0, moment, log.now, t.rows, repo.rows, TouchedIds(books, i),
              books[i].id);
  }

  lemma OthersStay(t: Table, t': Table, books: seq<Book>, n: nat)
    requires n < |books| && OnlyBook(t, t', books[n].id)
    requires forall k :: 0 <= k < n ==> books[k].id != books[n].id
    ensures TouchedIds(books, n + 1) == TouchedIds(books, n) + {books[n].id} && books[n].id !in TouchedIds(books, n)
    ensures forall j :: j in TouchedIds(books, n) ==>
      (j in t.rows <==> j in t'.rows) && (j in t.rows ==> t'.rows[j] == t.rows[j])
  {
  }

  lemma NothingYet(t0: Table, e0: Effects, books: seq<Book>, cfg: Settings, batchMode: bool)
    ensures Handled(t0, t0, books, 0, [], []) && SoFar(e0, e0, [], [], cfg, batchMode)
  {
  }

  /** The serial path of `_run_books`: one verdict per book, in order. */
  method RunBooks(repo: BookRepo, net: Channels, log: EventLog, books: seq<Book>, cfg: Settings,
                  outside: seq<Outside>, batchMode: bool)
    returns (vs: seq<Verdict>, ghost wss: seq<seq<Write>>)
    requires |outside| == |books| && Startable(repo.rows, books)
    modifies repo, net, log
    ensures Onward(repo) && log.now >= old(log.now)
    ensures |vs| == |books| && |wss| == |books|
    ensures Handled(old(Now(repo)), Now(repo), books, |books|, vs, wss)
    ensures SoFar(old(Out(net, log)), Out(net, log), books, vs, cfg, batchMode)
    ensures Tells(old(log.events), log.events, old(log.now), log.now, repo.rows, TouchedIds(books, |books|))
  {
    hide Handled, SoFar, Tells, Accounts;
    vs, wss := [], [];
    ghost var t0, e0, now0 := Now(repo), Out(net, log), log.now;
    NothingYet(t0, e0, books, cfg, batchMode);
    NothingOwedYet(log.events, log.now, repo.rows);
    assert TouchedIds(books, 0) == {};
    assert books[..0] == [];
    for i := 0 to |books|
      invariant |vs| == i && |wss| == i
      invariant Onward(repo) && log.now >= old(log.now)
      invariant Handled(t0, Now(repo), books, i, vs, wss)
      invariant SoFar(e0, Out(net, log), books[..i], vs, cfg, batchMode)
      invariant Tells(e0.events, log.events, now0, log.now, repo.rows, TouchedIds(books, i))
    {
      var v;
      ghost var ws;
      v, ws := RunNext(repo, net, log, books, i, cfg, outside[i], batchMode, t0, e0, now0, vs, wss);
      vs, wss := vs + [v], wss + [ws];
    }
    assert books[..|books|] == books;
  }
}
