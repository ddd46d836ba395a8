/** The worker's code is a participant of the protocol: the UPDATEs it issues for one book are steps the
    protocol allows, whatever the other ticks do in between. */
module Bridge {
  import opened Prelude
  import opened BookRows
  import opened QueueProtocol
  import opened Worker

  function AsStep(t: TickId, b: BookId, w: Write): Step {
    if KeepsInFlight(w) then Work(t, b, w) else Settle(t, b, w)
  }

  function WriteSteps(t: TickId, b: BookId, ws: seq<Write>): seq<Step> {
    seq(|ws|, i requires 0 <= i < |ws| => AsStep(t, b, ws[i]))
  }

  function WorkerSteps(t: TickId, b: BookId, ws: seq<Write>): seq<Step>
    requires ws != []
  {
    [TryClaim(t, b)] + WriteSteps(t, b, ws[1..])
  }

  lemma {:induction false} KeepingRun(c: Config, s: System, t: TickId, b: BookId, ws: seq<Write>)
    requires Owns(s, t, b) && forall i :: 0 <= i < |ws| ==> KeepsInFlight(ws[i])
    ensures IsRun(c, s, WriteSteps(t, b, ws))
    ensures Exec(c, s, WriteSteps(t, b, ws)).ticks == s.ticks
    ensures Exec(c, s, WriteSteps(t, b, ws)).kindles == s.kindles
    decreases |ws|
  {
    if ws != [] {
      var steps := WriteSteps(t, b, ws);
      assert steps[0] == Work(t, b, ws[0]) && steps[1..] == WriteSteps(t, b, ws[1..]);
      KeepingRun(c, Apply(c, s, steps[0]), t, b, ws[1..]);
    }
  }

  lemma ClaimThenHold(c: Config, s: System, t: TickId, b: BookId, ws: seq<Write>)
    requires Holding(ws)
    requires InPhase(s, t, Working) && b in s.ticks[t].todo
    requires b in s.rows && Claimable(s.rows[b].status)
    ensures IsRun(c, s, WorkerSteps(t, b, ws))
    ensures Owns(Exec(c, s, WorkerSteps(t, b, ws)), t, b)
    ensures Exec(c, s, WorkerSteps(t, b, ws)).kindles == s.kindles
  {
    var claimed := Apply(c, s, TryClaim(t, b));
    forall i | 0 <= i < |ws[1..]| ensures KeepsInFlight(ws[1..][i]) {
      assert ws[1..][i] == ws[i + 1];
    }
    KeepingRun(c, claimed, t, b, ws[1..]);
    SingleStep(c, s, TryClaim(t, b));
    Joined(c, s, [TryClaim(t, b)], WriteSteps(t, b, ws[1..]));
  }

  /** A worker that has won its claim runs to the end as the protocol describes: the book is its own
      until the last write, which releases it; and that write is the only one that can kindle it. */
  lemma WorkerFollowsProtocol(c: Config, s: System, t: TickId, b: BookId, ws: seq<Write>)
    requires HandedBack(ws)
    requires InPhase(s, t, Working) && b in s.ticks[t].todo
    requires b in s.rows && Claimable(s.rows[b].status)
    ensures IsRun(c, s, WorkerSteps(t, b, ws))
    ensures var last := Exec(c, s, WorkerSteps(t, b, ws));
      && !Owns(last, t, b)
      && last.kindles == if ws[|ws| - 1].MarkKindled? then s.kindles + [b] else s.kindles
  {
    var n := |ws| - 1;
    var front := ws[..n];
    ClaimThenHold(c, s, t, b, front);
    var mid := Exec(c, s, WorkerSteps(t, b, front));
    SingleStep(c, mid, Settle(t, b, ws[n]));
    Joined(c, s, WorkerSteps(t, b, front), [Settle(t, b, ws[n])]);
    assert WorkerSteps(t, b, ws) == WorkerSteps(t, b, front) + [Settle(t, b, ws[n])];
  }

  /** The tick a step belongs to; time and newly enrolled books belong to none. */
  function Actor(step: Step): Option<TickId> {
    match step
    case Elapse(_) => None
    case Enrol(_, _) => None
    case Begin(t) => Some(t)
    case SweepStale(t) => Some(t)
    case Snapshot(t) => Some(t)
    case TryClaim(t, _) => Some(t)
    case Work(t, _, _) => Some(t)
    case Settle(t, _, _) => Some(t)
    case Vanish(t) => Some(t)
  }

  /** Whatever happens elsewhere, a tick's own next write stays enabled; and while the lease is kept the
      row it writes to is exactly as it left it. */
  lemma {:induction false} UndisturbedByOthers(c: Config, s: System, t: TickId, b: BookId, others: seq<Step>)
    requires Exclusive(s) && IsRun(c, s, others) && LeaseKeptThroughout(c, s, others)
    requires forall i :: 0 <= i < |others| ==> Actor(others[i]) != Some(t)
    requires Owns(s, t, b)
    ensures Owns(Exec(c, s, others), t, b)
    ensures b in s.rows && b in Exec(c, s, others).rows && Exec(c, s, others).rows[b] == s.rows[b]
    decreases |others|
  {
    if others != [] {
      var step := others[0];
      assert Actor(step) != Some(t);
      var s' := Apply(c, s, step);
      assert Owns(s', t, b);
      OthersLeaveRow(c, s, t, b, step);
      StepKeepsExclusive(c, s, step);
      forall i | 0 <= i < |others[1..]| ensures Actor(others[1..][i]) != Some(t) {
        assert others[1..][i] == others[i + 1];
      }
      UndisturbedByOthers(c, s', t, b, others[1..]);
    }
  }

  lemma OthersLeaveRow(c: Config, s: System, t: TickId, b: BookId, step: Step)
    requires Exclusive(s) && LeaseKept(c, s) && Enabled(s, step)
    requires Owns(s, t, b) && Actor(step) != Some(t)
    ensures b in s.rows && b in Apply(c, s, step).rows && Apply(c, s, step).rows[b] == s.rows[b]
  {
    match step
    case Work(u, b', _) => assert Owns(s, u, b');
    case Settle(u, b', _) => assert Owns(s, u, b');
    case SweepStale(_) => assert !IsStale(s.rows[b], c.staleMinutes, s.now);
    case _ =>
  }
}
