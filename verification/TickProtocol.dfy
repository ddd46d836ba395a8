/** A whole call of `process_queue` is a run of the protocol: begin, sweep, snapshot, and then every UPDATE it
    issues, in the order in which it issues them. The order does not matter: one book after the other, or
    many held at once as in batch mode. */
module TickProtocol {
  import opened Prelude
  import opened BookRows
  import opened Quota
  import opened Router
  import opened Worker
  import opened Pipeline
  import opened Settling
  import opened TickRun
  import opened QueueProtocol
  import opened Bridge

  /** The UPDATEs of one book, in order. */
  function Writes(run: seq<Issued>, b: BookId): seq<Write> {
    if run == [] then []
    else
      var n := |run| - 1;
      Writes(run[..n], b) + if run[n].id == b then [run[n].w] else []
  }

  lemma {:induction false} WritesAreTrace(base: Image, run: seq<Issued>, b: BookId)
    ensures Earlier(Replayed(base, run).trace, b) == Earlier(base.trace, b) + Writes(run, b)
    decreases |run|
  {
    if run != [] {
      WritesAreTrace(base, run[..|run| - 1], b);
    }
  }

  function StepOf(t: TickId, e: Issued): Step {
    if e.w.Claim? then TryClaim(t, e.id) else AsStep(t, e.id, e.w)
  }

  /** Each UPDATE at its own time. */
  function StepsOf(t: TickId, base: Image, run: seq<Issued>): seq<Step>
    requires InTime(base, run)
  {
    if run == [] then []
    else
      var n := |run| - 1;
      StepsOf(t, base, run[..n]) + [Elapse(run[n].at - Replayed(base, run[..n]).now), StepOf(t, run[n])]
  }

  /** The books marked kindled, in order. */
  function KindledBy(run: seq<Issued>): seq<BookId> {
    if run == [] then []
    else
      var n := |run| - 1;
      KindledBy(run[..n]) + if run[n].w.MarkKindled? then [run[n].id] else []
  }

  /** A book the tick has not come to, one it holds, and one it is done with. */
  predicate Ahead(run: seq<Issued>, b: BookId) {
    Writes(run, b) == []
  }

  /** As far as the run has got, each book's UPDATEs keep the discipline, and no other book is written to. */
  ghost predicate Disciplined(run: seq<Issued>, ids: set<BookId>) {
    && (forall b :: b in ids ==> Ahead(run, b) || Holding(Writes(run, b)) || HandedBack(Writes(run, b)))
    && (forall b :: b !in ids ==> Ahead(run, b))
  }

  lemma HoldingFront(ws: seq<Write>, w: Write)
    requires Holding(ws + [w]) || HandedBack(ws + [w])
    ensures ws == [] || Holding(ws)
    ensures ws == [] <==> w == Claim
    ensures ws != [] && Holding(ws + [w]) ==> KeepsInFlight(w)
    ensures HandedBack(ws + [w]) ==> Settles(w) && !KeepsInFlight(w)
    ensures !(Holding(ws + [w]) && HandedBack(ws + [w]))
  {
    var all := ws + [w];
    assert all[..|all| - 1] == ws && all[|ws|] == w;
    if ws != [] {
      assert all[0] == ws[0] && forall i :: 0 <= i < |ws| ==> all[i] == ws[i];
    }
  }

  lemma WritesOfOthers(run: seq<Issued>, b: BookId)
    requires run != [] && run[|run| - 1].id != b
    ensures Writes(run, b) == Writes(run[..|run| - 1], b)
  {
  }

  lemma WritesOfLast(run: seq<Issued>)
    requires run != []
    ensures var n := |run| - 1; Writes(run, run[n].id) == Writes(run[..n], run[n].id) + [run[n].w]
  {
  }

  lemma DisciplinedFront(run: seq<Issued>, ids: set<BookId>)
    requires run != [] && Disciplined(run, ids)
    ensures var n := |run| - 1; Disciplined(run[..n], ids) && run[n].id in ids
  {
    hide Holding, HandedBack, Writes;
    var n := |run| - 1;
    WritesOfLast(run);
    HoldingFront(Writes(run[..n], run[n].id), run[n].w);
    forall b | b != run[n].id
      ensures Writes(run, b) == Writes(run[..n], b)
    {
      WritesOfOthers(run, b);
    }
  }

  /** Where the protocol stands after a stretch of the run. */
  ghost predicate Standing(s0: System, s: System, t: TickId, rows: map<BookId, Row>, run: seq<Issued>,
                           ids: set<BookId>) {
    && s.rows == rows
    && t in s.ticks && s.ticks == s0.ticks[t := s.ticks[t]] && s.ticks[t].phase == Working
    && (forall b :: b in s.ticks[t].todo <==> b in ids && Ahead(run, b))
    && (forall b :: b in s.ticks[t].owned <==> b in ids && Holding(Writes(run, b)))
    && (forall b :: b in ids && Ahead(run, b) ==> b in rows && Claimable(rows[b].status))
    && s.kindles == s0.kindles + KindledBy(run)
  }

  /** The roles of the book of an UPDATE, and of all others. */
  lemma Roles(run: seq<Issued>, ids: set<BookId>)
    requires run != [] && Disciplined(run, ids)
    ensures var n := |run| - 1;
      var e, front := run[n], run[..n];
      && e.id in ids && !Ahead(run, e.id)
      && (Ahead(front, e.id) <==> e.w == Claim) && (Ahead(front, e.id) || Holding(Writes(front, e.id)))
      && (e.w != Claim ==> (Holding(Writes(run, e.id)) <==> KeepsInFlight(e.w)))
      && (e.w != Claim && !KeepsInFlight(e.w) ==> Settles(e.w))
      && (e.w == Claim ==> Holding(Writes(run, e.id)))
      && forall b :: b != e.id ==> Writes(run, b) == Writes(front, b)
  {
    hide Writes, Holding, HandedBack;
    var n := |run| - 1;
    DisciplinedFront(run, ids);
    WritesOfLast(run);
    HoldingFront(Writes(run[..n], run[n].id), run[n].w);
    ClaimHolds(Writes(run[..n], run[n].id), run[n].w);
    forall b | b != run[n].id
      ensures Writes(run, b) == Writes(run[..n], b)
    {
      WritesOfOthers(run, b);
    }
  }

  lemma ClaimHolds(ws: seq<Write>, w: Write)
    requires Holding(ws + [w]) || HandedBack(ws + [w])
    ensures w == Claim ==> Holding(ws + [w])
    ensures w != Claim ==> (Holding(ws + [w]) <==> KeepsInFlight(w))
  {
    HoldingFront(ws, w);
    var all := ws + [w];
    if w != Claim && KeepsInFlight(w) {
      assert Holding(ws);
      assert forall i :: 1 <= i < |ws| ==> all[i] == ws[i];
    }
    assert ws == [] ==> all == [w];
  }

  lemma OneClaim(c: Config, s0: System, s: System, t: TickId, im: Image, run: seq<Issued>, ids: set<BookId>)
    requires run != [] && Disciplined(run, ids) && run[|run| - 1].w == Claim
    requires Standing(s0, s, t, im.rows, run[..|run| - 1], ids) && s.now == run[|run| - 1].at
    ensures var e := run[|run| - 1];
      && Enabled(s, TryClaim(t, e.id))
      && Standing(s0, Apply(c, s, TryClaim(t, e.id)), t, After(im, e).rows, run, ids)
  {
    hide Writes, Holding, HandedBack, Updated, Disciplined;
    Roles(run, ids);
  }

  lemma OneWork(c: Config, s0: System, s: System, t: TickId, im: Image, run: seq<Issued>, ids: set<BookId>)
    requires run != [] && Disciplined(run, ids) && run[|run| - 1].w != Claim
    requires Standing(s0, s, t, im.rows, run[..|run| - 1], ids) && s.now == run[|run| - 1].at
    ensures var e := run[|run| - 1];
      && Enabled(s, AsStep(t, e.id, e.w))
      && Standing(s0, Apply(c, s, AsStep(t, e.id, e.w)), t, After(im, e).rows, run, ids)
  {
    hide Writes, Holding, HandedBack, Updated, Disciplined;
    Roles(run, ids);
    KindleSettles(run[|run| - 1].w);
  }

  lemma KindleSettles(w: Write)
    ensures w.MarkKindled? ==> !KeepsInFlight(w)
  {
  }

  /** One UPDATE is one enabled step, and the protocol keeps standing where the run is. */
  lemma OneStep(c: Config, s0: System, s: System, t: TickId, im: Image, run: seq<Issued>, ids: set<BookId>)
    requires run != [] && Disciplined(run, ids)
    requires Standing(s0, s, t, im.rows, run[..|run| - 1], ids) && s.now == run[|run| - 1].at
    ensures var e := run[|run| - 1];
      && Enabled(s, StepOf(t, e))
      && Standing(s0, Apply(c, s, StepOf(t, e)), t, After(im, e).rows, run, ids)
      && Apply(c, s, StepOf(t, e)).now == e.at
  {
    hide Standing, Disciplined, Updated, Perform;
    if run[|run| - 1].w == Claim {
      OneClaim(c, s0, s, t, im, run, ids);
    } else {
      OneWork(c, s0, s, t, im, run, ids);
    }
  }

  lemma IssuedNothing(c: Config, s: System, t: TickId, base: Image)
    ensures StepsOf(t, base, []) == [] && IsRun(c, s, []) && Exec(c, s, []) == s && Replayed(base, []) == base
  {
  }

  lemma {:induction false} IssuedIsRun(c: Config, s0: System, s: System, t: TickId, base: Image, run: seq<Issued>,
                                       ids: set<BookId>)
    requires InTime(base, run) && Disciplined(run, ids)
    requires Standing(s0, s, t, base.rows, [], ids) && s.now == base.now
    ensures IsRun(c, s, StepsOf(t, base, run))
    ensures var last := Exec(c, s, StepsOf(t, base, run));
      Standing(s0, last, t, Replayed(base, run).rows, run, ids) && last.now == Replayed(base, run).now
    decreases |run|
  {
    hide *;
    if run == [] {
      IssuedNothing(c, s, t, base);
    } else {
      var n := |run| - 1;
      StepsUnfold(t, base, run);
      DisciplinedFront(run, ids);
      IssuedIsRun(c, s0, s, t, base, run[..n], ids);
      var mid := Exec(c, s, StepsOf(t, base, run[..n]));
      ElapseThenStep(c, s0, mid, t, Replayed(base, run[..n]), run, ids);
      Joined(c, s, StepsOf(t, base, run[..n]),
             [Elapse(run[n].at - Replayed(base, run[..n]).now), StepOf(t, run[n])]);
    }
  }

  lemma StepsUnfold(t: TickId, base: Image, run: seq<Issued>)
    requires run != [] && InTime(base, run)
    ensures var n := |run| - 1;
      && InTime(base, run[..n]) && run[n].at >= Replayed(base, run[..n]).now
      && StepsOf(t, base, run)
         == StepsOf(t, base, run[..n]) + [Elapse(run[n].at - Replayed(base, run[..n]).now), StepOf(t, run[n])]
      && Replayed(base, run) == After(Replayed(base, run[..n]), run[n]) && Replayed(base, run).now == run[n].at
  {
  }

  lemma ElapseThenStep(c: Config, s0: System, s: System, t: TickId, im: Image, run: seq<Issued>, ids: set<BookId>)
    requires run != [] && Disciplined(run, ids) && run[|run| - 1].at >= im.now
    requires Standing(s0, s, t, im.rows, run[..|run| - 1], ids) && s.now == im.now
    ensures var e := run[|run| - 1];
      var steps := [Elapse(e.at - im.now), StepOf(t, e)];
      && IsRun(c, s, steps)
      && Standing(s0, Exec(c, s, steps), t, After(im, e).rows, run, ids) && Exec(c, s, steps).now == e.at
  {
    hide StepOf, Disciplined, After;
    var e := run[|run| - 1];
    var s1 := Apply(c, s, Elapse(e.at - im.now));
    assert Standing(s0, s1, t, im.rows, run[..|run| - 1], ids);
    OneStep(c, s0, s1, t, im, run, ids);
    SingleStep(c, s, Elapse(e.at - im.now));
    SingleStep(c, s1, StepOf(t, e));
    Joined(c, s, [Elapse(e.at - im.now)], [StepOf(t, e)]);
    assert [Elapse(e.at - im.now)] + [StepOf(t, e)] == [Elapse(e.at - im.now), StepOf(t, e)];
  }

  /** How a tick starts. */
  function StartSteps(t: TickId, wait: nat): seq<Step> {
    [Begin(t), Elapse(wait), SweepStale(t), Snapshot(t)]
  }

  lemma StartIsRun(c: Config, s: System, t: TickId, wait: nat)
    requires t !in s.ticks
    ensures IsRun(c, s, StartSteps(t, wait))
    ensures var rows := Sweep(s.rows, c.staleMinutes, s.now + wait);
      Exec(c, s, StartSteps(t, wait))
      == s.(now := s.now + wait, rows := rows,
            ticks := s.ticks[t := Tick(Working, PendingIds(rows, c.maxAttempts), {})])
  {
    var rows := Sweep(s.rows, c.staleMinutes, s.now + wait);
    var s1 := Apply(c, s, Begin(t));
    var s2 := Apply(c, s1, Elapse(wait));
    var s3 := Apply(c, s2, SweepStale(t));
    var s4 := Apply(c, s3, Snapshot(t));
    SingleStep(c, s3, Snapshot(t));
    Joined(c, s2, [SweepStale(t)], [Snapshot(t)]);
    SingleStep(c, s2, SweepStale(t));
    SingleStep(c, s1, Elapse(wait));
    Joined(c, s1, [Elapse(wait)], [SweepStale(t)] + [Snapshot(t)]);
    SingleStep(c, s, Begin(t));
    Joined(c, s, [Begin(t)], [Elapse(wait)] + ([SweepStale(t)] + [Snapshot(t)]));
    assert [Begin(t)] + ([Elapse(wait)] + ([SweepStale(t)] + [Snapshot(t)])) == StartSteps(t, wait);
    assert s4.ticks == s.ticks[t := Tick(Working, PendingIds(rows, c.maxAttempts), {})];
  }

  /** Every book of the snapshot was handed back, and no other was written to. */
  ghost predicate AllDone(run: seq<Issued>, ids: set<BookId>) {
    (forall b :: b in ids ==> HandedBack(Writes(run, b))) && forall b :: b !in ids ==> Ahead(run, b)
  }

  lemma HandedBackIsNotHolding(ws: seq<Write>)
    requires HandedBack(ws)
    ensures ws != [] && !Holding(ws)
  {
    var w := ws[|ws| - 1];
    assert Settles(w) && !KeepsInFlight(w);
  }

  /** The whole tick: whatever the order of its UPDATEs, they are a run of the protocol that leaves the same
      table, holds nothing at the end and has kindled exactly the books marked so. */
  lemma TickIsRun(c: Config, s: System, t: TickId, base: Image, run: seq<Issued>)
    requires t !in s.ticks && base.now >= s.now && base.rows == Sweep(s.rows, c.staleMinutes, base.now)
    requires InTime(base, run) && AllDone(run, PendingIds(base.rows, c.maxAttempts))
    ensures var steps := StartSteps(t, base.now - s.now) + StepsOf(t, base, run);
      && IsRun(c, s, steps)
      && var last := Exec(c, s, steps);
         && last.rows == Replayed(base, run).rows && last.now == Replayed(base, run).now
         && last.ticks == s.ticks[t := Tick(Working, {}, {})]
         && last.kindles == s.kindles + KindledBy(run)
  {
    hide Holding, HandedBack, Writes;
    var ids := PendingIds(base.rows, c.maxAttempts);
    StartIsRun(c, s, t, base.now - s.now);
    var started := Exec(c, s, StartSteps(t, base.now - s.now));
    assert Ahead([], 0) by {
      NothingWritten(0);
    }
    forall b: BookId
      ensures Ahead([], b) && !Holding(Writes([], b))
    {
      NothingWritten(b);
    }
    assert Standing(s, started, t, base.rows, [], ids);
    IssuedIsRun(c, s, started, t, base, run, ids);
    Joined(c, s, StartSteps(t, base.now - s.now), StepsOf(t, base, run));
    var last := Exec(c, started, StepsOf(t, base, run));
    forall b | b in ids
      ensures !Ahead(run, b) && !Holding(Writes(run, b))
    {
      HandedBackIsNotHolding(Writes(run, b));
    }
    assert last.ticks[t] == Tick(Working, {}, {});
  }

  lemma NothingWritten(b: BookId)
    ensures Writes([], b) == [] && !Holding([]) && Ahead([], b)
  {
  }

  lemma JournalIsDone(t0: Table, t: Table, base: Image, run: seq<Issued>, ids: set<BookId>)
    requires AllHandedBack(t0, t, ids) && base.trace == t0.trace && Replayed(base, run).trace == t.trace
    ensures AllDone(run, ids)
  {
    hide HandedBack;
    forall b: BookId
      ensures Earlier(t.trace, b) == Earlier(t0.trace, b) + Writes(run, b)
    {
      WritesAreTrace(base, run, b);
    }
    forall b | b in ids
      ensures HandedBack(Writes(run, b))
    {
      assert Earlier(t.trace, b)[|Earlier(t0.trace, b)|..] == Writes(run, b);
    }
  }

  // The kindles of a tick.

  predicate EndsKindled(ws: seq<Write>) {
    ws != [] && ws[|ws| - 1].MarkKindled?
  }

  lemma OnlyTheLastSettles(ws: seq<Write>, w: Write)
    requires Holding(ws + [w]) || HandedBack(ws + [w])
    ensures !EndsKindled(ws) && (Holding(ws + [w]) ==> !w.MarkKindled?)
  {
    HoldingFront(ws, w);
    var all := ws + [w];
    assert ws != [] ==> Holding(ws) && (ws[|ws| - 1] == Claim || KeepsInFlight(ws[|ws| - 1]));
    assert all[|ws|] == w;
  }

  /** A disciplined tick kindles a book at most once, and then with its last UPDATE. */
  lemma {:induction false} KindledOnce(run: seq<Issued>, ids: set<BookId>, b: BookId)
    requires Disciplined(run, ids)
    ensures Count(KindledBy(run), b) == if EndsKindled(Writes(run, b)) then 1 else 0
    decreases |run|
  {
    hide Holding, HandedBack, Writes, Count, Disciplined;
    if run == [] {
      NothingKindled(b);
    } else {
      var n := |run| - 1;
      DisciplinedFront(run, ids);
      KindledOnce(run[..n], ids, b);
      CountSnoc(KindledBy(run[..n]), run[n].id, b);
      assert KindledBy(run[..n]) + [] == KindledBy(run[..n]);
      if run[n].id == b {
        WritesOfLast(run);
        LastOfBook(run, ids);
      } else {
        WritesOfOthers(run, b);
      }
    }
  }

  lemma NothingKindled(b: BookId)
    ensures Count(KindledBy([]), b) == 0 && !EndsKindled(Writes([], b))
  {
  }

  lemma LastOfBook(run: seq<Issued>, ids: set<BookId>)
    requires run != [] && Disciplined(run, ids)
    ensures var n := |run| - 1; !EndsKindled(Writes(run[..n], run[n].id))
  {
    hide Holding, HandedBack, Writes;
    var n := |run| - 1;
    DisciplinedFront(run, ids);
    WritesOfLast(run);
    OnlyTheLastSettles(Writes(run[..n], run[n].id), run[n].w);
  }

  /** Once handed back, a row is kindled exactly if its last UPDATE said so. */
  lemma {:induction false} KindledByLast(base: Image, run: seq<Issued>, b: BookId)
    requires HandedBack(Writes(run, b)) && b in base.rows
    ensures b in Replayed(base, run).rows
    ensures Replayed(base, run).rows[b].status == Kindled <==> EndsKindled(Writes(run, b))
    decreases |run|
  {
    hide HandedBack, Holding, Writes;
    if run == [] {
      NothingWritten(b);
      HandedBackIsNotHolding(Writes(run, b));
    } else {
      var n := |run| - 1;
      if run[n].id == b {
        HandedBackSettles(Writes(run, b));
        WritesOfLast(run);
        RowsStay(base, run[..n], b);
      } else {
        WritesOfOthers(run, b);
        KindledByLast(base, run[..n], b);
      }
    }
  }

  lemma HandedBackSettles(ws: seq<Write>)
    requires HandedBack(ws)
    ensures ws != [] && Settles(ws[|ws| - 1])
  {
  }

  lemma {:induction false} RowsStay(base: Image, run: seq<Issued>, b: BookId)
    requires b in base.rows
    ensures b in Replayed(base, run).rows
    decreases |run|
  {
    if run != [] {
      RowsStay(base, run[..|run| - 1], b);
    }
  }

  /** Over a whole tick, the kindles are the pending books now kindled, each once. */
  lemma KindlesAreKindled(base: Image, run: seq<Issued>, ids: set<BookId>, b: BookId)
    requires AllDone(run, ids) && ids <= base.rows.Keys
    ensures Count(KindledBy(run), b)
         == if b in ids && b in Replayed(base, run).rows && Replayed(base, run).rows[b].status == Kindled then 1 else 0
  {
    hide HandedBack, Writes, Count, Replayed, Holding;
    KindledOnce(run, ids, b);
    if b in ids {
      KindledByLast(base, run, b);
    }
  }

  /** `process_queue` as it is, next to the protocol: started on the same table, both end with the same. */
  method ProcessQueueIsRun(repo: BookRepo, net: Channels, log: EventLog, cfg: Settings, outsideFor: BookId -> Outside,
                           useBatch: bool, configured: bool, ghost s: System, ghost t: TickId)
    returns (tally: Tally, ghost steps: seq<Step>)
    requires s.rows == repo.rows && s.now == repo.now && t !in s.ticks
    modifies repo, net, log
    ensures var c := Config(cfg.maxAttempts, cfg.staleMinutes);
      && IsRun(c, s, steps)
      && var last := Exec(c, s, steps);
         && last.rows == repo.rows && last.now <= repo.now && last.ticks == s.ticks[t := Tick(Working, {}, {})]
         && last.kindles == s.kindles + KindledBy(repo.run)
    ensures forall b ::
      Count(KindledBy(repo.run), b)
      == if b in PendingIds(repo.base.rows, cfg.maxAttempts) && b in repo.rows && repo.rows[b].status == Kindled
         then 1 else 0
  {
    hide Tells, BackedOut, Count, KindledBy;
    hide IsRun, Exec, Sweep, TickEffect, TrueTally, KindledWasAccepted, CapsWithin;
    hide AllHandedBack, AllDone, InTime, Replayed;
    ghost var swept, at;
    tally, swept, at := ProcessQueue(repo, net, log, cfg, outsideFor, useBatch, configured);
    ghost var c := Config(cfg.maxAttempts, cfg.staleMinutes);
    JournalIsDone(swept, Table(repo.rows, repo.trace), repo.base, repo.run, PendingIds(swept.rows, cfg.maxAttempts));
    TickIsRun(c, s, t, repo.base, repo.run);
    steps := StartSteps(t, repo.base.now - s.now) + StepsOf(t, repo.base, repo.run);
    forall b: BookId
      ensures Count(KindledBy(repo.run), b)
        == if b in PendingIds(repo.base.rows, cfg.maxAttempts) && b in repo.rows && repo.rows[b].status == Kindled
           then 1 else 0
    {
      KindlesAreKindled(repo.base, repo.run, PendingIds(repo.base.rows, cfg.maxAttempts), b);
    }
  }
}
