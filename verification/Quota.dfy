/** The audit log and the rolling 24 h caps computed from it. */
module Quota {
  import opened Prelude

  const DAY := 86400

  datatype Kind = SendStk | SendStkFailed | SendStkBatch | SendSmtp | OtherKind

  datatype Event = Event(kind: Kind, book: Option<nat>, ts: int)

  /** Events of one kind in the 24 h window that ends at `end`. */
  function InWindow(events: seq<Event>, kind: Kind, end: int): nat {
    if events == [] then 0
    else
      var front, last := events[..|events| - 1], events[|events| - 1];
      InWindow(front, kind, end) + (if last.kind == kind && end - DAY <= last.ts <= end then 1 else 0)
  }

  /** Events of one kind with `from <= ts`. */
  function CountSince(events: seq<Event>, kind: Kind, from: int): nat {
    if events == [] then 0
    else
      var front, last := events[..|events| - 1], events[|events| - 1];
      CountSince(front, kind, from) + (if last.kind == kind && from <= last.ts then 1 else 0)
  }

  datatype StkQuotaStatus = StkQuotaStatus(sent24h: nat, cap: int, remaining: nat, exhausted: bool)

  function StkQuota(events: seq<Event>, now: int, dailyCap: int): StkQuotaStatus {
    var n := CountSince(events, SendStk, now - DAY);
    StkQuotaStatus(n, dailyCap, Max(0, dailyCap - n), n >= dailyCap)
  }

  datatype SmtpQuotaStatus = SmtpQuotaStatus(sent24h: nat, cap: int) {
    predicate Exhausted() {
      cap > 0 && sent24h >= cap
    }
  }

  /** A cap of zero or less disables the gate. */
  function SmtpQuota(events: seq<Event>, now: int, dailyCap: int): SmtpQuotaStatus {
    if dailyCap <= 0 then SmtpQuotaStatus(0, 0)
    else SmtpQuotaStatus(CountSince(events, SendSmtp, now - DAY), dailyCap)
  }

  /** No 24 h window, wherever it ends, holds more than `cap` events of this kind. */
  ghost predicate CapRespected(events: seq<Event>, kind: Kind, cap: int) {
    forall end :: InWindow(events, kind, end) <= cap
  }

  lemma InWindowSnoc(events: seq<Event>, e: Event, kind: Kind, end: int)
    ensures InWindow(events + [e], kind, end)
         == InWindow(events, kind, end) + (if e.kind == kind && end - DAY <= e.ts <= end then 1 else 0)
  {
    var all := events + [e];
    assert all[..|all| - 1] == events;
  }

  lemma {:induction false} WindowWithinSince(events: seq<Event>, kind: Kind, end: int, since: int)
    requires since <= end - DAY
    ensures InWindow(events, kind, end) <= CountSince(events, kind, since)
  {
    if events != [] {
      WindowWithinSince(events[..|events| - 1], kind, end, since);
    }
  }

  lemma {:induction false} CountSinceShrinks(events: seq<Event>, kind: Kind, from: int, later: int)
    requires from <= later
    ensures CountSince(events, kind, later) <= CountSince(events, kind, from)
  {
    if events != [] {
      CountSinceShrinks(events[..|events| - 1], kind, from, later);
    }
  }

  // No history is assumed: whatever the past windows held, what is added stays within a limit.

  /** No window has grown beyond `limit`; a window that was above it before has not grown at all. */
  ghost predicate GrowsWithin(before: seq<Event>, after: seq<Event>, kind: Kind, limit: int) {
    forall end :: InWindow(after, kind, end) <= Max(InWindow(before, kind, end), limit)
  }

  lemma GrowsWithinChain(a: seq<Event>, b: seq<Event>, c: seq<Event>, kind: Kind, limit: int)
    requires GrowsWithin(a, b, kind, limit) && GrowsWithin(b, c, kind, limit)
    ensures GrowsWithin(a, c, kind, limit)
  {
    forall end
      ensures InWindow(c, kind, end) <= Max(InWindow(a, kind, end), limit)
    {
      assert InWindow(b, kind, end) <= Max(InWindow(a, kind, end), limit);
    }
  }

  lemma GrowsWithinMore(a: seq<Event>, b: seq<Event>, kind: Kind, limit: int, more: int)
    requires GrowsWithin(a, b, kind, limit) && limit <= more
    ensures GrowsWithin(a, b, kind, more)
  {
  }

  /** Any bound on the past that is at least the limit is kept. */
  lemma GrowthKeepsBound(before: seq<Event>, after: seq<Event>, kind: Kind, limit: int, bound: int)
    requires GrowsWithin(before, after, kind, limit) && limit <= bound
    requires CapRespected(before, kind, bound)
    ensures CapRespected(after, kind, bound)
  {
    forall end
      ensures InWindow(after, kind, end) <= bound
    {
      assert InWindow(before, kind, end) <= bound;
    }
  }

  /** A check that passed at `checked` still covers a send recorded at any later moment, as long as
      nothing else of this kind was recorded in between. */
  lemma LateRecordKeepsCap(events: seq<Event>, kind: Kind, cap: int, checked: int, e: Event)
    requires CountSince(events, kind, checked - DAY) < cap
    requires e.ts >= checked
    ensures GrowsWithin(events, events + [e], kind, cap)
  {
    forall end
      ensures InWindow(events + [e], kind, end) <= Max(InWindow(events, kind, end), cap)
    {
      InWindowSnoc(events, e, kind, end);
      if end >= checked {
        WindowWithinSince(events, kind, end, checked - DAY);
      }
    }
  }

  // One check followed by several sends.

  /** `n` events of the kind were added, all at or after `checked`. */
  ghost predicate GrewBy(before: seq<Event>, after: seq<Event>, kind: Kind, checked: int, n: nat) {
    forall end :: InWindow(after, kind, end) <= InWindow(before, kind, end) + (if end >= checked then n else 0)
  }

  lemma GrowOne(before: seq<Event>, after: seq<Event>, kind: Kind, checked: int, n: nat, e: Event)
    requires GrewBy(before, after, kind, checked, n)
    requires e.ts >= checked
    ensures GrewBy(before, after + [e], kind, checked, if e.kind == kind then n + 1 else n)
  {
    forall end
      ensures InWindow(after + [e], kind, end)
           <= InWindow(before, kind, end)
              + (if end >= checked then (if e.kind == kind then n + 1 else n) else 0)
    {
      InWindowSnoc(after, e, kind, end);
    }
  }

  /** A single check before `n` sends lets a window overshoot by at most `n - 1`. */
  lemma OneCheckManySends(before: seq<Event>, after: seq<Event>, kind: Kind, cap: int, checked: int, n: nat)
    requires CountSince(before, kind, checked - DAY) < cap
    requires GrewBy(before, after, kind, checked, n)
    ensures GrowsWithin(before, after, kind, cap - 1 + n)
  {
    forall end
      ensures InWindow(after, kind, end) <= Max(InWindow(before, kind, end), cap - 1 + n)
    {
      if end >= checked {
        WindowWithinSince(before, kind, end, checked - DAY);
      }
    }
  }

  /** As far as this kind goes, the two logs are the same. */
  ghost predicate SameFor(before: seq<Event>, after: seq<Event>, kind: Kind) {
    && (forall end :: InWindow(after, kind, end) == InWindow(before, kind, end))
    && (forall from :: CountSince(after, kind, from) == CountSince(before, kind, from))
  }

  lemma SameForGrowsWithin(before: seq<Event>, after: seq<Event>, kind: Kind, limit: int)
    requires SameFor(before, after, kind)
    ensures GrowsWithin(before, after, kind, limit)
  {
  }

  lemma SameForOne(before: seq<Event>, after: seq<Event>, kind: Kind, e: Event)
    requires SameFor(before, after, kind) && e.kind != kind
    ensures SameFor(before, after + [e], kind)
  {
    assert (after + [e])[..|after|] == after;
    forall end
      ensures InWindow(after + [e], kind, end) == InWindow(before, kind, end)
    {
      InWindowSnoc(after, e, kind, end);
    }
  }

  // What exactly was added to the log, and when.

  /** An event without its time. */
  datatype Entry = Entry(kind: Kind, book: Option<nat>)

  function Entries(events: seq<Event>): seq<Entry> {
    seq(|events|, i requires 0 <= i < |events| => Entry(events[i].kind, events[i].book))
  }

  /** One entry of this kind per book. */
  function ForIds(kind: Kind, ids: seq<nat>): (entries: seq<Entry>)
    ensures |entries| == |ids|
  {
    seq(|ids|, i requires 0 <= i < |ids| => Entry(kind, Some(ids[i])))
  }

  lemma ForIdsSnoc(kind: Kind, ids: seq<nat>, id: nat)
    ensures ForIds(kind, ids + [id]) == ForIds(kind, ids) + [Entry(kind, Some(id))]
  {
  }

  lemma {:induction false} ForIdsCount(kind: Kind, ids: seq<nat>, e: Entry)
    ensures Count(ForIds(kind, ids), e) == if e.kind == kind && e.book.Some? then Count(ids, e.book.value) else 0
  {
    if ids != [] {
      var n := |ids| - 1;
      assert ids == ids[..n] + [ids[n]];
      ForIdsSnoc(kind, ids[..n], ids[n]);
      ForIdsCount(kind, ids[..n], e);
      CountSnoc(ForIds(kind, ids[..n]), Entry(kind, Some(ids[n])), e);
      if e.book.Some? {
        CountSnoc(ids[..n], ids[n], e.book.value);
      }
    }
  }

  lemma {:induction false} ForIdsOfKind(kind: Kind, ids: seq<nat>, k: Kind)
    ensures OfKind(ForIds(kind, ids), k) == if k == kind then |ids| else 0
  {
    if ids != [] {
      var n := |ids| - 1;
      assert ids == ids[..n] + [ids[n]];
      ForIdsSnoc(kind, ids[..n], ids[n]);
      ForIdsOfKind(kind, ids[..n], k);
      assert ForIds(kind, ids)[..n] == ForIds(kind, ids[..n]);
    }
  }

  /** What the log has gained. */
  function Added(before: seq<Event>, after: seq<Event>): seq<Entry>
    requires |before| <= |after|
  {
    Entries(after[|before|..])
  }

  /** Nothing was lost, and exactly these entries were added in this order between the two moments. */
  ghost predicate Logged(before: seq<Event>, after: seq<Event>, entries: seq<Entry>, from: int, to: int) {
    && |before| <= |after| && after[..|before|] == before
    && Added(before, after) == entries
    && forall i :: |before| <= i < |after| ==> from <= after[i].ts <= to
  }

  lemma LoggedNone(events: seq<Event>, from: int, to: int)
    ensures Logged(events, events, [], from, to)
  {
  }

  lemma LoggedLonger(before: seq<Event>, after: seq<Event>, entries: seq<Entry>, from: int, to: int, later: int)
    requires Logged(before, after, entries, from, to) && to <= later
    ensures Logged(before, after, entries, from, later)
  {
  }

  lemma LoggedMore(a: seq<Event>, b: seq<Event>, c: seq<Event>, first: seq<Entry>, second: seq<Entry>,
                   from: int, middle: int, to: int)
    requires Logged(a, b, first, from, middle) && Logged(b, c, second, middle, to) && from <= middle <= to
    ensures Logged(a, c, first + second, from, to)
  {
    assert c[..|a|] == c[..|b|][..|a|];
    assert forall i :: |a| <= i < |b| ==> c[i] == c[..|b|][i];
    var all := Added(a, c);
    assert all[..|first|] == first && all[|first|..] == second;
    assert all == all[..|first|] + all[|first|..];
  }

  lemma LoggedOne(before: seq<Event>, e: Event, from: int, to: int)
    requires from <= e.ts <= to
    ensures Logged(before, before + [e], [Entry(e.kind, e.book)], from, to)
  {
    assert (before + [e])[|before|..] == [e];
  }

  /** How many entries are of this kind. */
  function OfKind(entries: seq<Entry>, kind: Kind): nat {
    if entries == [] then 0
    else OfKind(entries[..|entries| - 1], kind) + if entries[|entries| - 1].kind == kind then 1 else 0
  }

  lemma {:induction false} OfKindAppend(a: seq<Entry>, b: seq<Entry>, kind: Kind)
    ensures OfKind(a + b, kind) == OfKind(a, kind) + OfKind(b, kind)
    decreases |b|
  {
    if b == [] {
      assert a + b == a;
    } else {
      var n := |b| - 1;
      assert (a + b)[..|a| + n] == a + b[..n];
      OfKindAppend(a, b[..n], kind);
    }
  }

  lemma LoggedFront(before: seq<Event>, after: seq<Event>, entries: seq<Entry>, from: int, to: int)
    requires entries != [] && Logged(before, after, entries, from, to)
    ensures var n, m := |after| - 1, |entries| - 1;
      && n >= 0 && Logged(before, after[..n], entries[..m], from, to) && after == after[..n] + [after[n]]
      && Entry(after[n].kind, after[n].book) == entries[m] && from <= after[n].ts <= to
  {
    var n, m := |after| - 1, |entries| - 1;
    assert |Added(before, after)| == |after| - |before|;
    assert after[..n][..|before|] == before;
    assert Added(before, after)[m] == Entry(after[n].kind, after[n].book);
    assert Added(before, after[..n]) == entries[..m] by {
      assert forall i :: 0 <= i < m ==> Added(before, after)[i] == entries[i];
    }
  }

  lemma LoggedNothing(before: seq<Event>, after: seq<Event>, from: int, to: int)
    requires Logged(before, after, [], from, to)
    ensures before == after
  {
    assert |Added(before, after)| == |after| - |before|;
  }

  lemma LoggedSingle(before: seq<Event>, after: seq<Event>, entry: Entry, from: int, to: int)
    requires Logged(before, after, [entry], from, to)
    ensures |after| == |before| + 1 && after == before + [after[|before|]]
    ensures Entry(after[|before|].kind, after[|before|].book) == entry && from <= after[|before|].ts <= to
    ensures forall kind :: kind != entry.kind ==> SameFor(before, after, kind)
  {
    hide SameFor;
    LoggedFront(before, after, [entry], from, to);
    LoggedNothing(before, after[..|after| - 1], from, to);
    forall kind | kind != entry.kind
      ensures SameFor(before, after, kind)
    {
      GrewByNone(before, kind, from);
      SameForOne(before, before, kind, after[|before|]);
    }
  }

  /** The windows and counts of a kind follow from the entries. */
  lemma {:induction false} LoggedGrows(before: seq<Event>, after: seq<Event>, entries: seq<Entry>, from: int,
                                       to: int, kind: Kind)
    requires Logged(before, after, entries, from, to)
    ensures GrewBy(before, after, kind, from, OfKind(entries, kind))
    ensures OfKind(entries, kind) == 0 ==> SameFor(before, after, kind)
    decreases |entries|
  {
    hide Logged, SameFor, GrewBy;
    if entries == [] {
      LoggedNothing(before, after, from, to);
      GrewByNone(before, kind, from);
    } else {
      var n := |after| - 1;
      LoggedFront(before, after, entries, from, to);
      LoggedGrows(before, after[..n], entries[..|entries| - 1], from, to, kind);
      GrowOne(before, after[..n], kind, from, OfKind(entries[..|entries| - 1], kind), after[n]);
      if OfKind(entries, kind) == 0 {
        SameForOne(before, after[..n], kind, after[n]);
      }
    }
  }

  lemma GrewByNone(events: seq<Event>, kind: Kind, from: int)
    ensures GrewBy(events, events, kind, from, 0) && SameFor(events, events, kind)
  {
  }

  /** Exactly `n` events of the kind were added to the window that ends now, and to what the quota counts. */
  ghost predicate Counted(before: seq<Event>, after: seq<Event>, kind: Kind, now: int, n: nat) {
    && InWindow(after, kind, now) == InWindow(before, kind, now) + n
    && CountSince(after, kind, now - DAY) == CountSince(before, kind, now - DAY) + n
  }

  lemma CountedOne(before: seq<Event>, after: seq<Event>, kind: Kind, now: int, n: nat, e: Event)
    requires Counted(before, after, kind, now, n) && e.ts == now
    ensures Counted(before, after + [e], kind, now, if e.kind == kind then n + 1 else n)
  {
    assert (after + [e])[..|after|] == after;
  }

  /** All at one moment, so all of them are in the window that ends now. */
  lemma {:induction false} LoggedCounts(before: seq<Event>, after: seq<Event>, entries: seq<Entry>, now: int,
                                        kind: Kind)
    requires Logged(before, after, entries, now, now)
    ensures Counted(before, after, kind, now, OfKind(entries, kind))
    decreases |entries|
  {
    if entries == [] {
      LoggedNothing(before, after, now, now);
    } else {
      hide Logged;
      var n := |after| - 1;
      LoggedFront(before, after, entries, now, now);
      LoggedCounts(before, after[..n], entries[..|entries| - 1], now, kind);
      CountedOne(before, after[..n], kind, now, OfKind(entries[..|entries| - 1], kind), after[n]);
    }
  }

  /** Whoever passed the SMTP gate by now saw fewer than `smtpCap` sends in its window. */
  ghost predicate GatePassed(events: seq<Event>, smtpCap: int, now: int) {
    smtpCap > 0 ==> CountSince(events, SendSmtp, now - DAY) < smtpCap
  }

  lemma GateStaysPassed(events: seq<Event>, smtpCap: int, now: int, later: int)
    requires now <= later
    ensures GatePassed(events, smtpCap, now) ==> GatePassed(events, smtpCap, later)
  {
    CountSinceShrinks(events, SendSmtp, now - DAY, later - DAY);
  }

  /** The log and its clock. With `instant` no time passes at all, which makes one run of what is written
      below a definite one. */
  class EventLog {
    const instant: bool
    var events: seq<Event>
    var now: int

    constructor (start: int, instant: bool)
      ensures events == [] && now == start && this.instant == instant
    {
      this.instant, events, now := instant, [], start;
    }

    /** Time passes: a throttle sleep, a backoff, a network call. */
    method Sleep()
      modifies this`now
      ensures now >= old(now) && (instant ==> now == old(now))
    {
      if !instant {
        var later: int :| later >= now;
        now := later;
      }
    }

    method Record(kind: Kind, book: Option<nat>)
      modifies this
      ensures now >= old(now) && (instant ==> now == old(now))
      ensures events == old(events) + [Event(kind, book, now)]
    {
      Sleep();
      events := events + [Event(kind, book, now)];
    }
  }
}
