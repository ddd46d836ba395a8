/** The rolling caps over whole runs: how far any window can grow, and a run that gets that far. */
module CapRuns {
  import opened Prelude
  import opened BookRows
  import opened Packing
  import opened Quota
  import opened Router
  import opened BatchDelivery
  import opened Worker
  import opened Pipeline
  import opened TickRun

  /** The log around one tick, its settings, and how many books it sends after one check: all its books in
      batch mode, one otherwise. */
  datatype LoggedTick = LoggedTick(before: seq<Event>, after: seq<Event>, cfg: Settings, sends: nat)

  /** Ticks that do not overlap; between them only events of other kinds are recorded. */
  ghost predicate LoggedRun(ticks: seq<LoggedTick>) {
    && (forall i :: 0 <= i < |ticks| ==> CapsWithin(ticks[i].before, ticks[i].after, ticks[i].cfg, ticks[i].sends))
    && (forall i, j :: 0 <= i < j < |ticks| && j == i + 1 ==>
          SameFor(ticks[i].after, ticks[j].before, SendStk) && SameFor(ticks[i].after, ticks[j].before, SendSmtp))
  }

  /** How far a window may get when every check is followed by at most `n` sends. */
  function Reach(cap: int, n: nat): int {
    Max(cap, cap - 1 + n)
  }

  /** Settings may change from tick to tick; both caps stay on and never exceed these. */
  ghost predicate CapsAtMost(ticks: seq<LoggedTick>, stkCap: int, smtpCap: int, n: nat) {
    forall i :: 0 <= i < |ticks| ==>
      && ticks[i].cfg.stk.dailyCap.Some? && ticks[i].cfg.stk.dailyCap.value <= stkCap
      && 0 < ticks[i].cfg.smtpCap <= smtpCap
      && ticks[i].sends <= Max(1, n)
  }

  lemma TickWithinReach(t: LoggedTick, stkCap: int, smtpCap: int, n: nat)
    requires CapsWithin(t.before, t.after, t.cfg, t.sends) && CapsAtMost([t], stkCap, smtpCap, n)
    ensures GrowsWithin(t.before, t.after, SendStk, Reach(stkCap, n))
    ensures GrowsWithin(t.before, t.after, SendSmtp, Reach(smtpCap, n))
  {
    hide GrowsWithin;
    assert [t][0] == t;
    GrowsWithinMore(t.before, t.after, SendStk, t.cfg.stk.dailyCap.value - 1 + t.sends, Reach(stkCap, n));
    GrowsWithinMore(t.before, t.after, SendSmtp, t.cfg.smtpCap - 1 + t.sends, Reach(smtpCap, n));
  }

  /** Over every run of ticks of at most `n` books each, in any mix of modes, no window of either kind grows
      beyond its cap by more than `n - 1`. Windows that were above that before the run do not grow at all. */
  lemma {:induction false} CapsOverRun(ticks: seq<LoggedTick>, k: nat, stkCap: int, smtpCap: int, n: nat)
    requires LoggedRun(ticks) && k < |ticks| && CapsAtMost(ticks, stkCap, smtpCap, n)
    ensures GrowsWithin(ticks[0].before, ticks[k].after, SendStk, Reach(stkCap, n))
    ensures GrowsWithin(ticks[0].before, ticks[k].after, SendSmtp, Reach(smtpCap, n))
    decreases k
  {
    hide GrowsWithin, SameFor, CapsWithin;
    TickWithinReach(ticks[k], stkCap, smtpCap, n);
    if k > 0 {
      CapsOverRun(ticks, k - 1, stkCap, smtpCap, n);
      var first, prev, t := ticks[0].before, ticks[k - 1].after, ticks[k];
      forall kind, limit | kind == SendStk || kind == SendSmtp
        ensures GrowsWithin(prev, t.before, kind, limit)
      {
        SameForGrowsWithin(prev, t.before, kind, limit);
      }
      GrowsWithinChain(first, prev, t.before, SendStk, Reach(stkCap, n));
      GrowsWithinChain(first, t.before, t.after, SendStk, Reach(stkCap, n));
      GrowsWithinChain(first, prev, t.before, SendSmtp, Reach(smtpCap, n));
      GrowsWithinChain(first, t.before, t.after, SendSmtp, Reach(smtpCap, n));
    }
  }

  /** In particular a run that starts within these bounds, as with an empty log, stays within them. */
  lemma CapsRespectedOverRun(ticks: seq<LoggedTick>, k: nat, stkCap: int, smtpCap: int, n: nat)
    requires LoggedRun(ticks) && k < |ticks| && CapsAtMost(ticks, stkCap, smtpCap, n)
    requires CapRespected(ticks[0].before, SendStk, Reach(stkCap, n))
    requires CapRespected(ticks[0].before, SendSmtp, Reach(smtpCap, n))
    ensures CapRespected(ticks[k].after, SendStk, Reach(stkCap, n))
    ensures CapRespected(ticks[k].after, SendSmtp, Reach(smtpCap, n))
  {
    hide GrowsWithin, CapRespected;
    CapsOverRun(ticks, k, stkCap, smtpCap, n);
    GrowthKeepsBound(ticks[0].before, ticks[k].after, SendStk, Reach(stkCap, n), Reach(stkCap, n));
    GrowthKeepsBound(ticks[0].before, ticks[k].after, SendSmtp, Reach(smtpCap, n), Reach(smtpCap, n));
  }

  /** What the outside decides for one tick. */
  datatype TickPlan = TickPlan(cfg: Settings, outsideFor: BookId -> Outside, useBatch: bool, configured: bool)

  lemma LoggedRunSnoc(ticks: seq<LoggedTick>, t: LoggedTick)
    requires LoggedRun(ticks) && CapsWithin(t.before, t.after, t.cfg, t.sends)
    requires ticks != [] ==> ticks[|ticks| - 1].after == t.before
    ensures LoggedRun(ticks + [t])
  {
    hide CapsWithin, InWindow, CountSince;
  }

  method RunTick(repo: BookRepo, net: Channels, log: EventLog, plan: TickPlan) returns (ghost t: LoggedTick)
    modifies repo, net, log
    ensures t.before == old(log.events) && t.after == log.events && t.cfg == plan.cfg
    ensures CapsWithin(t.before, t.after, t.cfg, t.sends)
    ensures t.sends <= if plan.useBatch then |old(repo.rows)| else 1
    ensures repo.rows.Keys == old(repo.rows).Keys
  {
    hide CapsWithin, Tells, BackedOut, TrueTally, AllHandedBack, KindledWasAccepted, IsPending;
    ghost var before := log.events;
    var tally;
    ghost var swept, at;
    tally, swept, at := ProcessQueue(repo, net, log, plan.cfg, plan.outsideFor, plan.useBatch, plan.configured);
    SubsetSize(PendingIds(swept.rows, plan.cfg.maxAttempts), old(repo.rows).Keys);
    assert |old(repo.rows).Keys| == |old(repo.rows)|;
    ghost var sends: nat := if plan.useBatch then |PendingIds(swept.rows, plan.cfg.maxAttempts)| else 1;
    t := LoggedTick(before, log.events, plan.cfg, sends);
  }

  /** One tick after the other: what they do to the log is a run in the sense above. */
  method RunTicks(repo: BookRepo, net: Channels, log: EventLog, plans: seq<TickPlan>)
    returns (ghost ticks: seq<LoggedTick>)
    modifies repo, net, log
    ensures LoggedRun(ticks) && |ticks| == |plans|
    ensures forall i :: 0 <= i < |plans| ==> AsPlanned(ticks[i], plans[i], |old(repo.rows)|)
    ensures plans != [] ==> ticks[0].before == old(log.events) && ticks[|ticks| - 1].after == log.events
    ensures plans == [] ==> log.events == old(log.events)
  {
    hide CapsWithin, LoggedRun;
    ticks := [];
    assert LoggedRun(ticks) by {
      NoTicks();
    }
    ghost var books := repo.rows.Keys;
    for i := 0 to |plans|
      invariant LoggedRun(ticks) && |ticks| == i && repo.rows.Keys == books
      invariant forall j :: 0 <= j < i ==> AsPlanned(ticks[j], plans[j], |books|)
      invariant i == 0 ==> log.events == old(log.events)
      invariant i > 0 ==> ticks[0].before == old(log.events) && ticks[i - 1].after == log.events
    {
      assert |repo.rows| == |repo.rows.Keys|;
      ghost var t := RunTick(repo, net, log, plans[i]);
      LoggedRunSnoc(ticks, t);
      ticks := ticks + [t];
    }
  }

  /** The settings of the plan, and as many sends after one check as its mode allows with that many books. */
  ghost predicate AsPlanned(t: LoggedTick, plan: TickPlan, books: nat) {
    t.cfg == plan.cfg && t.sends <= if plan.useBatch then books else 1
  }

  /** The most that one check can be followed by: all books in a batch, one otherwise. */
  function MostSends(plans: seq<TickPlan>, books: nat): nat {
    if exists i :: 0 <= i < |plans| && plans[i].useBatch then books else 1
  }

  lemma PlannedCaps(ticks: seq<LoggedTick>, plans: seq<TickPlan>, books: nat, stkCap: int, smtpCap: int)
    requires |ticks| == |plans| && forall i :: 0 <= i < |plans| ==> AsPlanned(ticks[i], plans[i], books)
    requires Capped(plans, stkCap, smtpCap)
    ensures CapsAtMost(ticks, stkCap, smtpCap, MostSends(plans, books))
  {
    forall i | 0 <= i < |ticks|
      ensures ticks[i].cfg == plans[i].cfg && ticks[i].sends <= Max(1, MostSends(plans, books))
    {
      assert AsPlanned(ticks[i], plans[i], books);
    }
  }

  /** Every plan has both caps on, and none above these. */
  predicate Capped(plans: seq<TickPlan>, stkCap: int, smtpCap: int) {
    forall i :: 0 <= i < |plans| ==>
      && plans[i].cfg.stk.dailyCap.Some? && plans[i].cfg.stk.dailyCap.value <= stkCap
      && 0 < plans[i].cfg.smtpCap <= smtpCap
  }

  /** The caps of the code itself: however often it ticks, in whatever modes and with whatever outcomes, no
      window grows beyond the reach of its caps; and a log within the reach stays there. */
  method RunWithinCaps(repo: BookRepo, net: Channels, log: EventLog, plans: seq<TickPlan>, ghost stkCap: int,
                       ghost smtpCap: int)
    requires Capped(plans, stkCap, smtpCap)
    modifies repo, net, log
    ensures var n := MostSends(plans, |old(repo.rows)|);
      && GrowsWithin(old(log.events), log.events, SendStk, Reach(stkCap, n))
      && GrowsWithin(old(log.events), log.events, SendSmtp, Reach(smtpCap, n))
      && (CapRespected(old(log.events), SendStk, Reach(stkCap, n)) ==>
            CapRespected(log.events, SendStk, Reach(stkCap, n)))
      && (CapRespected(old(log.events), SendSmtp, Reach(smtpCap, n)) ==>
            CapRespected(log.events, SendSmtp, Reach(smtpCap, n)))
  {
    hide LoggedRun, CapsAtMost, Capped, AsPlanned, GrowsWithin, CapRespected;
    ghost var ticks := RunTicks(repo, net, log, plans);
    ghost var n := MostSends(plans, |old(repo.rows)|);
    PlannedCaps(ticks, plans, |old(repo.rows)|, stkCap, smtpCap);
    if plans == [] {
      NothingHappened(log.events, Reach(stkCap, n), Reach(smtpCap, n));
    } else {
      CapsOverRun(ticks, |ticks| - 1, stkCap, smtpCap, n);
    }
    KeptIfRespected(old(log.events), log.events, SendStk, Reach(stkCap, n));
    KeptIfRespected(old(log.events), log.events, SendSmtp, Reach(smtpCap, n));
  }

  lemma NothingHappened(events: seq<Event>, stk: int, smtp: int)
    ensures GrowsWithin(events, events, SendStk, stk) && GrowsWithin(events, events, SendSmtp, smtp)
  {
  }

  lemma KeptIfRespected(before: seq<Event>, after: seq<Event>, kind: Kind, bound: int)
    requires GrowsWithin(before, after, kind, bound)
    ensures CapRespected(before, kind, bound) ==> CapRespected(after, kind, bound)
  {
    hide GrowsWithin, CapRespected;
    if CapRespected(before, kind, bound) {
      GrowthKeepsBound(before, after, kind, bound, bound);
    }
  }

  lemma NoTicks()
    ensures LoggedRun([])
  {
  }

  /** Below the cap, when nothing fails, a call counts all its files. */
  method DeliverSmall(net: Channels, log: EventLog, cap: int, files: seq<BookFile>)
    requires Smooth(net, log) && CountSince(log.events, SendStk, log.now - DAY) < cap
    requires forall f :: f in files ==> f.size == 1
    modifies net, log
    ensures log.now == old(log.now) && Counted(old(log.events), log.events, SendStk, log.now, |files|)
  {
    hide GrowsWithin, GatePassed, SameFor, ReportedBy, Counted, CountSince, Logged;
    var results;
    ghost var viaStk, history;
    results, viaStk, history := DeliverBatch(net, log, files, StkConfig(Some(cap), 1, 1, 1), 0, true);
  }

  /** The bound is reached, for every cap and every batch size: `cap - 1` single deliveries and one batch of
      `n`, with nothing failing and all within one moment, put `cap - 1 + n` sends into one window. */
  method OvershootIsReached(cap: nat, n: nat) returns (log: EventLog)
    requires cap >= 1 && n >= 1
    ensures InWindow(log.events, SendStk, log.now) == Reach(cap, n)
    ensures StkQuota(log.events, log.now, cap).sent24h == Reach(cap, n)
  {
    log := new EventLog(0, true);
    var net := new Channels(true);
    for i := 0 to cap - 1
      invariant Smooth(net, log) && fresh(log) && fresh(net)
      invariant InWindow(log.events, SendStk, log.now) == i
      invariant CountSince(log.events, SendStk, log.now - DAY) == i
    {
      DeliverSmall(net, log, cap, [BookFile(i, 1)]);
    }
    DeliverSmall(net, log, cap, seq(n, i requires 0 <= i < n => BookFile(i, 1)));
  }
}
