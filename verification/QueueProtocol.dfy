/** Any number of overlapping ticks (process job, retry job, manual run) sharing the `books` table.

    Every UPDATE is one atomic step on shared rows. A tick sweeps, takes one `pending` snapshot and
    then works through it. Each snapshot book is offered to the claim once; a book the tick won stays
    with it until its last write, and one tick may hold several at once (the parallel workers, and
    batch mode, where finished books wait for a common delivery). A tick may die at any moment, which
    is what leaves stale in-flight rows behind. */
module QueueProtocol {
  import opened Prelude
  import opened BookRows

  type TickId = nat

  datatype Phase = Starting | Swept | Working

  datatype Tick = Tick(phase: Phase, todo: set<BookId>, owned: set<BookId>)

  datatype Config = Config(maxAttempts: int, staleMinutes: int)

  /** `kindles` lists the books in the order in which they were marked kindled. */
  datatype System = System(
    now: int,
    rows: map<BookId, Row>,
    ticks: map<TickId, Tick>,
    kindles: seq<BookId>)

  datatype Step =
    | Elapse(d: nat)
    | Enrol(book: BookId, createdAt: int)
    | Begin(t: TickId)
    | SweepStale(t: TickId)
    | Snapshot(t: TickId)
    | TryClaim(t: TickId, book: BookId)
    | Work(t: TickId, book: BookId, w: Write)
    | Settle(t: TickId, book: BookId, w: Write)
    | Vanish(t: TickId)

  predicate InPhase(s: System, t: TickId, p: Phase) {
    t in s.ticks && s.ticks[t].phase == p
  }

  predicate Owns(s: System, t: TickId, b: BookId) {
    t in s.ticks && b in s.ticks[t].owned
  }

  predicate Enabled(s: System, step: Step) {
    match step
    case Elapse(_) => true
    case Enrol(b, _) => b !in s.rows
    case Begin(t) => t !in s.ticks
    case SweepStale(t) => InPhase(s, t, Starting)
    case Snapshot(t) => InPhase(s, t, Swept)
    case TryClaim(t, b) => InPhase(s, t, Working) && b in s.ticks[t].todo
    case Work(t, b, w) => Owns(s, t, b) && KeepsInFlight(w)
    case Settle(t, b, w) => Owns(s, t, b) && Settles(w)
    case Vanish(t) => t in s.ticks
  }

  /** The row `upsert` inserts, with the column defaults of the schema. */
  function NewRow(createdAt: int, now: int): Row {
    Row(Queued, 0, createdAt, now, None, None, None, None, None, None, None, None)
  }

  function Apply(c: Config, s: System, step: Step): System
    requires Enabled(s, step)
  {
    match step
    case Elapse(d) => s.(now := s.now + d)
    case Enrol(b, at) => s.(rows := s.rows[b := NewRow(at, s.now)])
    case Begin(t) => s.(ticks := s.ticks[t := Tick(Starting, {}, {})])
    case SweepStale(t) =>
      s.(rows := Sweep(s.rows, c.staleMinutes, s.now),
         ticks := s.ticks[t := s.ticks[t].(phase := Swept)])
    case Snapshot(t) =>
      s.(ticks := s.ticks[t := s.ticks[t].(phase := Working, todo := PendingIds(s.rows, c.maxAttempts))])
    case TryClaim(t, b) =>
      var tick := s.ticks[t].(todo := s.ticks[t].todo - {b});
      if b in s.rows && Claimable(s.rows[b].status) then
        s.(rows := Perform(s.rows, b, Claim, s.now),
           ticks := s.ticks[t := tick.(owned := tick.owned + {b})])
      else
        s.(ticks := s.ticks[t := tick])
    case Work(t, b, w) => s.(rows := Perform(s.rows, b, w, s.now))
    case Settle(t, b, w) =>
      s.(rows := Perform(s.rows, b, w, s.now),
         ticks := s.ticks[t := s.ticks[t].(owned := s.ticks[t].owned - {b})],
         kindles := if w.MarkKindled? then s.kindles + [b] else s.kindles)
    case Vanish(t) => s.(ticks := s.ticks - {t})
  }

  // Runs.

  predicate IsRun(c: Config, s: System, steps: seq<Step>)
    decreases |steps|
  {
    steps == [] || (Enabled(s, steps[0]) && IsRun(c, Apply(c, s, steps[0]), steps[1..]))
  }

  function Exec(c: Config, s: System, steps: seq<Step>): System
    requires IsRun(c, s, steps)
    decreases |steps|
  {
    if steps == [] then s else Exec(c, Apply(c, s, steps[0]), steps[1..])
  }

  /** Nothing is running yet, and no row has used more than its budget. */
  ghost predicate Initial(c: Config, s: System) {
    && s.ticks == map[]
    && s.kindles == []
    && (forall b :: b in s.rows ==> s.rows[b].attempts <= Max(c.maxAttempts, 0))
  }

  /** No owner has let more than `staleMinutes` pass since its last write to the row. */
  ghost predicate LeaseKept(c: Config, s: System) {
    forall t, b :: Owns(s, t, b) && b in s.rows ==> s.now - s.rows[b].updatedAt <= 60 * c.staleMinutes
  }

  ghost predicate LeaseKeptThroughout(c: Config, s: System, steps: seq<Step>)
    requires IsRun(c, s, steps)
    decreases |steps|
  {
    LeaseKept(c, s) && (steps != [] ==> LeaseKeptThroughout(c, Apply(c, s, steps[0]), steps[1..]))
  }

  ghost predicate OverlapAtMost(c: Config, s: System, steps: seq<Step>, overlap: nat)
    requires IsRun(c, s, steps)
    decreases |steps|
  {
    |s.ticks| <= overlap && (steps != [] ==> OverlapAtMost(c, Apply(c, s, steps[0]), steps[1..], overlap))
  }

  lemma {:induction false} Joined(c: Config, s: System, front: seq<Step>, back: seq<Step>)
    requires IsRun(c, s, front) && IsRun(c, Exec(c, s, front), back)
    ensures IsRun(c, s, front + back)
    ensures Exec(c, s, front + back) == Exec(c, Exec(c, s, front), back)
    decreases |front|
  {
    if front == [] {
      assert front + back == back;
    } else {
      assert (front + back)[0] == front[0] && (front + back)[1..] == front[1..] + back;
      Joined(c, Apply(c, s, front[0]), front[1..], back);
    }
  }

  lemma {:induction false} LeaseSplits(c: Config, s: System, front: seq<Step>, back: seq<Step>)
    requires IsRun(c, s, front + back) && LeaseKeptThroughout(c, s, front + back)
    ensures IsRun(c, s, front) && LeaseKeptThroughout(c, s, front)
    ensures IsRun(c, Exec(c, s, front), back) && LeaseKeptThroughout(c, Exec(c, s, front), back)
    ensures Exec(c, s, front + back) == Exec(c, Exec(c, s, front), back)
    decreases |front|
  {
    if front == [] {
      assert front + back == back;
    } else {
      assert (front + back)[0] == front[0] && (front + back)[1..] == front[1..] + back;
      LeaseSplits(c, Apply(c, s, front[0]), front[1..], back);
    }
  }

  // Lease exclusion.

  ghost predicate OwnedRowsInFlight(s: System) {
    forall t, b :: Owns(s, t, b) ==> b in s.rows && InFlight(s.rows[b].status)
  }

  ghost predicate AtMostOneOwner(s: System) {
    forall t1, t2, b :: Owns(s, t1, b) && Owns(s, t2, b) ==> t1 == t2
  }

  ghost predicate Exclusive(s: System) {
    OwnedRowsInFlight(s) && AtMostOneOwner(s)
  }

  lemma StepKeepsExclusive(c: Config, s: System, step: Step)
    requires Exclusive(s) && Enabled(s, step)
    requires step.SweepStale? ==> LeaseKept(c, s)
    ensures Exclusive(Apply(c, s, step))
  {
    var s' := Apply(c, s, step);
    forall t, b | Owns(s', t, b)
      ensures Owns(s, t, b) || (step == TryClaim(t, b) && b in s.rows && Claimable(s.rows[b].status))
      ensures b in s'.rows && InFlight(s'.rows[b].status)
    {
      if Owns(s, t, b) {
        assert b in s.rows && InFlight(s.rows[b].status);
        match step
        case SweepStale(_) => assert !IsStale(s.rows[b], c.staleMinutes, s.now);
        case Settle(u, _, _) => assert Owns(s, u, step.book);
        case _ =>
      }
    }
  }

  /** In every interleaving of ticks, workers and sweeps, a book has at most one owner and an owned
      book is in one of the four in-flight statuses, as long as the lease is kept. */
  lemma {:induction false} LeaseExclusion(c: Config, s: System, steps: seq<Step>)
    requires Exclusive(s) && IsRun(c, s, steps) && LeaseKeptThroughout(c, s, steps)
    ensures Exclusive(Exec(c, s, steps))
    decreases |steps|
  {
    if steps != [] {
      StepKeepsExclusive(c, s, steps[0]);
      LeaseExclusion(c, Apply(c, s, steps[0]), steps[1..]);
    }
  }

  /** The sweep is the one step that can break exclusion, and it does so exactly when it takes a row
      whose owner has let the lease lapse. */
  lemma SweepBreaksExactlyLapsedLeases(c: Config, s: System, t: TickId)
    requires Exclusive(s) && InPhase(s, t, Starting)
    ensures Exclusive(Apply(c, s, SweepStale(t))) <==> LeaseKept(c, s)
  {
    var s' := Apply(c, s, SweepStale(t));
    assert forall u, b :: Owns(s', u, b) <==> Owns(s, u, b);
    if !LeaseKept(c, s) {
      var u, b :| Owns(s, u, b) && b in s.rows && s.now - s.rows[b].updatedAt > 60 * c.staleMinutes;
      assert Owns(s', u, b) && s'.rows[b].status == Queued;
    } else {
      StepKeepsExclusive(c, s, SweepStale(t));
    }
  }

  // Kindled is absorbing.

  predicate Terminal(status: Status) {
    status in {Kindled, Skipped, Sent}
  }

  lemma TerminalRowsAreFrozen(c: Config, s: System, step: Step, b: BookId)
    requires Exclusive(s) && Enabled(s, step)
    requires b in s.rows && Terminal(s.rows[b].status)
    ensures b in Apply(c, s, step).rows && Apply(c, s, step).rows[b] == s.rows[b]
  {
    match step
    case Work(t, b', w) => assert Owns(s, t, b');
    case Settle(t, b', w) => assert Owns(s, t, b');
    case _ =>
  }

  lemma {:induction false} FrozenFromHere(c: Config, s: System, steps: seq<Step>, b: BookId)
    requires Exclusive(s) && IsRun(c, s, steps) && LeaseKeptThroughout(c, s, steps)
    requires b in s.rows && Terminal(s.rows[b].status)
    ensures b in Exec(c, s, steps).rows && Exec(c, s, steps).rows[b] == s.rows[b]
    decreases |steps|
  {
    if steps != [] {
      StepKeepsExclusive(c, s, steps[0]);
      TerminalRowsAreFrozen(c, s, steps[0], b);
      FrozenFromHere(c, Apply(c, s, steps[0]), steps[1..], b);
    }
  }

  /** Once a row is kindled (or parked as skipped), the rest of the run leaves every column alone. */
  lemma TerminalForGood(c: Config, s: System, front: seq<Step>, back: seq<Step>, b: BookId)
    requires Initial(c, s) && IsRun(c, s, front + back) && LeaseKeptThroughout(c, s, front + back)
    ensures IsRun(c, s, front)
    ensures b in Exec(c, s, front).rows && Terminal(Exec(c, s, front).rows[b].status) ==>
      b in Exec(c, s, front + back).rows && Exec(c, s, front + back).rows[b] == Exec(c, s, front).rows[b]
  {
    LeaseSplits(c, s, front, back);
    LeaseExclusion(c, s, front);
    var mid := Exec(c, s, front);
    if b in mid.rows && Terminal(mid.rows[b].status) {
      FrozenFromHere(c, mid, back, b);
    }
  }

  ghost predicate KindledOnce(s: System) {
    && NoDuplicates(s.kindles)
    && forall b :: b in s.kindles ==> b in s.rows && s.rows[b].status == Kindled
  }

  /** Over a whole run every book is marked kindled at most once. */
  lemma {:induction false} KindledAtMostOnce(c: Config, s: System, steps: seq<Step>)
    requires Exclusive(s) && KindledOnce(s)
    requires IsRun(c, s, steps) && LeaseKeptThroughout(c, s, steps)
    ensures KindledOnce(Exec(c, s, steps))
    decreases |steps|
  {
    if steps != [] {
      var s' := Apply(c, s, steps[0]);
      forall b | b in s.kindles
        ensures b in s'.rows && s'.rows[b].status == Kindled
      {
        TerminalRowsAreFrozen(c, s, steps[0], b);
      }
      if steps[0].Settle? {
        assert Owns(s, steps[0].t, steps[0].book);
      }
      StepKeepsExclusive(c, s, steps[0]);
      KindledAtMostOnce(c, s', steps[1..]);
    }
  }

  // The retry budget.

  /** The ticks that still have the book ahead of them or in hand. */
  function Holders(s: System, b: BookId): set<TickId> {
    set t | t in s.ticks && (b in s.ticks[t].todo || b in s.ticks[t].owned)
  }

  ghost predicate Tidy(s: System) {
    forall t :: t in s.ticks ==>
      && s.ticks[t].todo <= s.rows.Keys
      && s.ticks[t].owned <= s.rows.Keys
      && s.ticks[t].todo !! s.ticks[t].owned
      && (s.ticks[t].phase != Working ==> s.ticks[t].todo == s.ticks[t].owned == {})
  }

  /** Every holder may still burn one attempt, and there is room for all of them. */
  ghost predicate WithinBudget(c: Config, s: System, overlap: nat) {
    && Tidy(s)
    && forall b :: b in s.rows ==> s.rows[b].attempts + |Holders(s, b)| <= Max(c.maxAttempts, 0) + overlap - 1
  }

  lemma StepKeepsTidy(c: Config, s: System, step: Step)
    requires Tidy(s) && Enabled(s, step)
    ensures Tidy(Apply(c, s, step))
  {
  }

  /** A snapshot may make a pending book anybody's; it has attempts left for that. */
  lemma SnapshotKeepsRoom(c: Config, s: System, step: Step, overlap: nat, b: BookId)
    requires Enabled(s, step) && step.Snapshot? && |s.ticks| <= overlap
    requires b in s.rows && IsPending(s.rows[b], c.maxAttempts)
    ensures var s' := Apply(c, s, step);
      b in s'.rows && s'.rows[b].attempts + |Holders(s', b)| <= Max(c.maxAttempts, 0) + overlap - 1
  {
    SubsetSize(Holders(Apply(c, s, step), b), s.ticks.Keys);
  }

  /** Handing a book back costs at most one attempt and takes one holder away. */
  lemma SettlingFreesAHolder(c: Config, s: System, step: Step, b: BookId)
    requires Tidy(s) && Enabled(s, step) && step.Settle? && step.book == b && b in s.rows
    ensures var s' := Apply(c, s, step);
      b in s'.rows && s'.rows[b].attempts + |Holders(s', b)| <= s.rows[b].attempts + |Holders(s, b)|
  {
    var before, after := Holders(s, b), Holders(Apply(c, s, step), b);
    assert step.t in before && after == before - {step.t};
  }

  /** No other step costs an attempt or adds a holder. */
  lemma OtherStepsAddNoHolder(c: Config, s: System, step: Step, b: BookId)
    requires Tidy(s) && Enabled(s, step) && b in s.rows
    requires step.Snapshot? ==> !IsPending(s.rows[b], c.maxAttempts)
    requires step.Settle? ==> step.book != b
    ensures var s' := Apply(c, s, step);
      b in s'.rows && s'.rows[b].attempts == s.rows[b].attempts && |Holders(s', b)| <= |Holders(s, b)|
  {
    assert Holders(Apply(c, s, step), b) <= Holders(s, b);
    SubsetSize(Holders(Apply(c, s, step), b), Holders(s, b));
  }

  lemma NobodyHoldsNewRow(c: Config, s: System, step: Step, b: BookId)
    requires Tidy(s) && Enabled(s, step) && b !in s.rows && b in Apply(c, s, step).rows
    ensures Apply(c, s, step).rows[b].attempts == 0 && Holders(Apply(c, s, step), b) == {}
  {
  }

  lemma StepKeepsBudget(c: Config, s: System, step: Step, overlap: nat)
    requires WithinBudget(c, s, overlap) && Enabled(s, step)
    requires |s.ticks| <= overlap && overlap >= 1
    ensures WithinBudget(c, Apply(c, s, step), overlap)
  {
    hide Tidy, Apply, Enabled, Holders, IsPending;
    StepKeepsTidy(c, s, step);
    var s' := Apply(c, s, step);
    forall b | b in s'.rows
      ensures s'.rows[b].attempts + |Holders(s', b)| <= Max(c.maxAttempts, 0) + overlap - 1
    {
      if b !in s.rows {
        NobodyHoldsNewRow(c, s, step, b);
      } else if step.Snapshot? && IsPending(s.rows[b], c.maxAttempts) {
        SnapshotKeepsRoom(c, s, step, overlap, b);
      } else if step.Settle? && step.book == b {
        SettlingFreesAHolder(c, s, step, b);
      } else {
        OtherStepsAddNoHolder(c, s, step, b);
      }
    }
  }

  lemma {:induction false} BudgetHolds(c: Config, s: System, steps: seq<Step>, overlap: nat)
    requires WithinBudget(c, s, overlap) && overlap >= 1
    requires IsRun(c, s, steps) && OverlapAtMost(c, s, steps, overlap)
    ensures WithinBudget(c, Exec(c, s, steps), overlap)
    decreases |steps|
  {
    if steps != [] {
      StepKeepsBudget(c, s, steps[0], overlap);
      BudgetHolds(c, Apply(c, s, steps[0]), steps[1..], overlap);
    }
  }

  /** With at most `overlap` ticks alive at any time, no book is ever tried more than
      `maxAttempts + overlap - 1` times. The claim does not look at `attempts` again, so stale
      snapshots cost up to `overlap - 1` extra tries; the lease plays no part. */
  lemma RetryBudget(c: Config, s: System, steps: seq<Step>, overlap: nat, b: BookId)
    requires Initial(c, s) && IsRun(c, s, steps) && OverlapAtMost(c, s, steps, overlap)
    requires overlap >= 1
    ensures b in Exec(c, s, steps).rows ==>
      Exec(c, s, steps).rows[b].attempts <= Max(c.maxAttempts, 0) + overlap - 1
  {
    forall b | b in s.rows ensures Holders(s, b) == {} {}
    BudgetHolds(c, s, steps, overlap);
  }

  // Both side conditions are needed.

  const LONELY := 0

  /** One queued book that has been tried `attempts` times, and nothing running. */
  function OneBook(attempts: nat): System {
    System(0, map[LONELY := NewRow(0, 0).(attempts := attempts)], map[], [])
  }

  /** What a tick does before it works: sweep, snapshot. */
  function Opening(t: TickId): seq<Step> {
    [Begin(t), SweepStale(t), Snapshot(t)]
  }

  lemma OpeningRun(c: Config, s: System, t: TickId)
    requires t !in s.ticks
    ensures IsRun(c, s, Opening(t))
    ensures var rows := Sweep(s.rows, c.staleMinutes, s.now);
      Exec(c, s, Opening(t))
      == s.(rows := rows, ticks := s.ticks[t := Tick(Working, PendingIds(rows, c.maxAttempts), {})])
  {
    var rows := Sweep(s.rows, c.staleMinutes, s.now);
    var s1 := Apply(c, s, Begin(t));
    var s2 := Apply(c, s1, SweepStale(t));
    var s3 := Apply(c, s2, Snapshot(t));
    var tail := [SweepStale(t), Snapshot(t)];
    SingleStep(c, s2, Snapshot(t));
    assert tail[0] == SweepStale(t) && tail[1..] == [Snapshot(t)];
    assert IsRun(c, s1, tail) && Exec(c, s1, tail) == s3;
    assert Opening(t)[0] == Begin(t) && Opening(t)[1..] == tail;
    assert s3.ticks == s.ticks[t := Tick(Working, PendingIds(rows, c.maxAttempts), {})];
  }

  lemma SingleStep(c: Config, s: System, step: Step)
    requires Enabled(s, step)
    ensures IsRun(c, s, [step]) && Exec(c, s, [step]) == Apply(c, s, step)
  {
    assert [step][1..] == [];
  }

  function LapsedRun(c: Config): seq<Step> {
    Opening(0) + [TryClaim(0, LONELY)] + [Elapse(Max(0, 60 * c.staleMinutes + 1))] + Opening(1)
    + [TryClaim(1, LONELY)]
  }

  /** In every configuration that retries at all there is a run with a lapsed lease after which two
      ticks own the same book. */
  lemma LapsedLeaseLosesExclusion(c: Config)
    requires c.maxAttempts >= 1
    ensures Initial(c, OneBook(0)) && IsRun(c, OneBook(0), LapsedRun(c))
    ensures var last := Exec(c, OneBook(0), LapsedRun(c));
      Owns(last, 0, LONELY) && Owns(last, 1, LONELY) && last.kindles == []
  {
    var s, d := OneBook(0), Max(0, 60 * c.staleMinutes + 1);
    assert Sweep(s.rows, c.staleMinutes, 0) == s.rows;
    assert PendingIds(s.rows, c.maxAttempts) == {LONELY};
    OpeningRun(c, s, 0);
    var s1 := Exec(c, s, Opening(0));
    SingleStep(c, s1, TryClaim(0, LONELY));
    Joined(c, s, Opening(0), [TryClaim(0, LONELY)]);
    var s2 := Apply(c, s1, TryClaim(0, LONELY));
    assert s2.rows[LONELY] == NewRow(0, 0).(status := Searching);
    SingleStep(c, s2, Elapse(d));
    Joined(c, s, Opening(0) + [TryClaim(0, LONELY)], [Elapse(d)]);
    var s3 := Apply(c, s2, Elapse(d));
    OpeningRun(c, s3, 1);
    Joined(c, s, Opening(0) + [TryClaim(0, LONELY)] + [Elapse(d)], Opening(1));
    var s4 := Exec(c, s3, Opening(1));
    assert IsPending(s4.rows[LONELY], c.maxAttempts) && LONELY in s4.ticks[1].todo;
    SingleStep(c, s4, TryClaim(1, LONELY));
    Joined(c, s, Opening(0) + [TryClaim(0, LONELY)] + [Elapse(d)] + Opening(1), [TryClaim(1, LONELY)]);
  }

  /** From there one of them may mark the book kindled and the other mark it failed. */
  lemma LapsedLeaseLosesKindled(c: Config)
    requires c.maxAttempts >= 1
    ensures var steps := LapsedRun(c) + [Settle(0, LONELY, MarkKindled("stk"))] + [Settle(1, LONELY, SetFailed)];
      && IsRun(c, OneBook(0), steps)
      && var last := Exec(c, OneBook(0), steps);
         last.kindles == [LONELY] && LONELY in last.rows && last.rows[LONELY].status == Failed
  {
    LapsedLeaseLosesExclusion(c);
    var s := OneBook(0);
    var s1 := Exec(c, s, LapsedRun(c));
    var kindle, fail := Settle(0, LONELY, MarkKindled("stk")), Settle(1, LONELY, SetFailed);
    SingleStep(c, s1, kindle);
    Joined(c, s, LapsedRun(c), [kindle]);
    var s2 := Apply(c, s1, kindle);
    assert Owns(s2, 1, LONELY);
    SingleStep(c, s2, fail);
    Joined(c, s, LapsedRun(c) + [kindle], [fail]);
    RowsStay(c, s, LapsedRun(c), LONELY);
  }

  lemma {:induction false} RowsStay(c: Config, s: System, steps: seq<Step>, b: BookId)
    requires IsRun(c, s, steps) && b in s.rows
    ensures b in Exec(c, s, steps).rows
    decreases |steps|
  {
    if steps != [] {
      RowsStay(c, Apply(c, s, steps[0]), steps[1..], b);
    }
  }

  /** `n` ticks take their snapshot before any of them claims. */
  function AllSnapshot(n: nat): seq<Step> {
    if n == 0 then [] else AllSnapshot(n - 1) + Opening(n - 1)
  }

  function TryAndFail(t: TickId): seq<Step> {
    [TryClaim(t, LONELY), Settle(t, LONELY, SetFailed)]
  }

  /** Then the first `k` of them try the book one after the other and fail. */
  function EachFails(k: nat): seq<Step> {
    if k == 0 then [] else EachFails(k - 1) + TryAndFail(k - 1)
  }

  function UpTo(n: nat): (ids: set<TickId>)
    ensures |ids| == n && forall t: TickId :: t in ids <==> t < n
  {
    if n == 0 then {} else UpTo(n - 1) + {n - 1}
  }

  function Waiting(n: nat, done: nat): map<TickId, Tick> {
    map t | t in UpTo(n) :: Tick(Working, if t < done then {} else {LONELY}, {})
  }

  lemma NobodyWaits()
    ensures Waiting(0, 0) == map[]
  {
  }

  lemma OneBookWaits(c: Config)
    requires c.maxAttempts >= 1
    ensures var s := OneBook(c.maxAttempts - 1);
      Sweep(s.rows, c.staleMinutes, s.now) == s.rows && PendingIds(s.rows, c.maxAttempts) == {LONELY}
  {
  }

  lemma {:induction false} AllSnapshotRun(c: Config, s: System, n: nat)
    requires c.maxAttempts >= 1 && s == OneBook(c.maxAttempts - 1)
    ensures IsRun(c, s, AllSnapshot(n))
    ensures Exec(c, s, AllSnapshot(n)) == s.(ticks := Waiting(n, 0))
    decreases n
  {
    hide Apply, Enabled, Waiting, Sweep, PendingIds;
    if n == 0 {
      NobodyWaits();
    } else {
      var t := n - 1;
      AllSnapshotRun(c, s, t);
      OneBookWaits(c);
      OneMoreSnapshot(c, Exec(c, s, AllSnapshot(t)), t);
      Joined(c, s, AllSnapshot(t), Opening(t));
    }
  }

  lemma OneMoreSnapshot(c: Config, s: System, t: nat)
    requires s.ticks == Waiting(t, 0)
    requires Sweep(s.rows, c.staleMinutes, s.now) == s.rows
    requires PendingIds(s.rows, c.maxAttempts) == {LONELY}
    ensures IsRun(c, s, Opening(t))
    ensures Exec(c, s, Opening(t)) == s.(ticks := Waiting(t + 1, 0))
  {
    OpeningRun(c, s, t);
    assert Waiting(t, 0)[t := Tick(Working, {LONELY}, {})] == Waiting(t + 1, 0);
  }

  ghost predicate Retryable(s: System, attempts: int) {
    && LONELY in s.rows && s.rows[LONELY].attempts == attempts
    && (s.rows[LONELY].status == Queued || s.rows[LONELY].status == Failed)
  }

  lemma TryAndFailRun(c: Config, s: System, n: nat, t: TickId, attempts: nat)
    requires t < n && s.ticks == Waiting(n, t) && Retryable(s, attempts)
    ensures IsRun(c, s, TryAndFail(t))
    ensures var last := Exec(c, s, TryAndFail(t));
      last.ticks == Waiting(n, t + 1) && Retryable(last, attempts + 1)
  {
    var s1 := Apply(c, s, TryClaim(t, LONELY));
    assert {LONELY} - {LONELY} == {} && {} + {LONELY} == {LONELY};
    assert s1.ticks[t] == Tick(Working, {}, {LONELY});
    var s2 := Apply(c, s1, Settle(t, LONELY, SetFailed));
    assert s2.ticks[t] == Tick(Working, {}, {});
    assert s2.ticks == Waiting(n, t + 1);
    SingleStep(c, s1, Settle(t, LONELY, SetFailed));
    assert TryAndFail(t)[1..] == [Settle(t, LONELY, SetFailed)];
  }

  lemma {:induction false} EachFailsRun(c: Config, s: System, n: nat, k: nat, attempts: nat)
    requires k <= n && s.ticks == Waiting(n, 0) && Retryable(s, attempts)
    ensures IsRun(c, s, EachFails(k))
    ensures var last := Exec(c, s, EachFails(k)); last.ticks == Waiting(n, k) && Retryable(last, attempts + k)
    decreases k
  {
    hide Waiting, Retryable, Apply, Enabled, TryAndFail;
    if k == 0 {
      assert Exec(c, s, EachFails(0)) == s;
    } else {
      EachFailsRun(c, s, n, k - 1, attempts);
      var s1 := Exec(c, s, EachFails(k - 1));
      TryAndFailRun(c, s1, n, k - 1, attempts + k - 1);
      Joined(c, s, EachFails(k - 1), TryAndFail(k - 1));
    }
  }

  lemma {:induction false} BeginsBoundOverlap(c: Config, s: System, steps: seq<Step>, n: nat)
    requires IsRun(c, s, steps) && s.ticks.Keys <= UpTo(n)
    requires forall i :: 0 <= i < |steps| && steps[i].Begin? ==> steps[i].t < n
    ensures OverlapAtMost(c, s, steps, n)
    decreases |steps|
  {
    SubsetSize(s.ticks.Keys, UpTo(n));
    if steps != [] {
      assert steps[0].Begin? ==> steps[0].t < n;
      BeginsBoundOverlap(c, Apply(c, s, steps[0]), steps[1..], n);
    }
  }

  lemma {:induction false} BeginsBelow(n: nat, k: nat)
    ensures forall i :: 0 <= i < |AllSnapshot(n)| && AllSnapshot(n)[i].Begin? ==> AllSnapshot(n)[i].t < n
    ensures forall i :: 0 <= i < |EachFails(k)| ==> !EachFails(k)[i].Begin?
    decreases n + k
  {
    if n > 0 {
      BeginsBelow(n - 1, k);
    } else if k > 0 {
      BeginsBelow(n, k - 1);
    }
  }

  /** The bound of `RetryBudget` is reached for every budget and every degree of overlap. */
  lemma RetryBudgetIsTight(c: Config, overlap: nat) returns (s: System, steps: seq<Step>)
    requires c.maxAttempts >= 1 && overlap >= 1
    ensures Initial(c, s) && IsRun(c, s, steps) && OverlapAtMost(c, s, steps, overlap)
    ensures LONELY in Exec(c, s, steps).rows
    ensures Exec(c, s, steps).rows[LONELY].attempts == c.maxAttempts + overlap - 1
  {
    s := OneBook(c.maxAttempts - 1);
    steps := AllSnapshot(overlap) + EachFails(overlap);
    AllSnapshotRun(c, s, overlap);
    EachFailsRun(c, Exec(c, s, AllSnapshot(overlap)), overlap, overlap, c.maxAttempts - 1);
    Joined(c, s, AllSnapshot(overlap), EachFails(overlap));
    BeginsBelow(overlap, overlap);
    BeginsBoundOverlap(c, s, steps, overlap);
  }
}
