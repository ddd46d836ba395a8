/** `TokenBucket`: at most `capacity` immediate grants per host in any stretch of `period` seconds. The
    pruned deque stands in for the whole history of grants. */
module RateLimit {
  import opened Prelude

  /** What `acquire` answers; `Crash` is the `IndexError` of looking at the front of an empty deque. */
  datatype Answer = Granted | Wait(seconds: real) | Crash

  datatype Limit = Limit(capacity: int, period: real)

  function Pruned(l: Limit, q: seq<real>, t: real): seq<real> {
    if q != [] && t - q[0] >= l.period then Pruned(l, q[1..], t) else q
  }

  function NextQueue(l: Limit, q: seq<real>, t: real): seq<real> {
    var kept := Pruned(l, q, t);
    if |kept| < l.capacity then kept + [t] else kept
  }

  function AnswerTo(l: Limit, q: seq<real>, t: real, jitter: real): Answer {
    var kept := Pruned(l, q, t);
    if |kept| < l.capacity then Granted
    else if kept == [] then Crash
    else
      var wait := l.period - (t - kept[0]) + jitter;
      Wait(if wait > 0.0 then wait else 0.0)
  }

  // The reference: decide by the whole history of grants.

  function Recent(l: Limit, grants: seq<real>, t: real): seq<real> {
    Filter((x: real) => t - x < l.period, grants)
  }

  /** The immediate grants among calls at the given times. */
  function Grants(l: Limit, calls: seq<real>): seq<real> {
    if calls == [] then []
    else
      var n := |calls| - 1;
      var earlier := Grants(l, calls[..n]);
      if |Recent(l, earlier, calls[n])| < l.capacity then earlier + [calls[n]] else earlier
  }

  /** The deque after the same calls. */
  function Deque(l: Limit, calls: seq<real>): seq<real> {
    if calls == [] then [] else NextQueue(l, Deque(l, calls[..|calls| - 1]), calls[|calls| - 1])
  }

  ghost predicate NonDecreasing(s: seq<real>) {
    forall i, j :: 0 <= i <= j < |s| ==> s[i] <= s[j]
  }

  lemma EmptyDeque(l: Limit)
    ensures Deque(l, []) == []
  {
  }

  lemma DequeSnoc(l: Limit, calls: seq<real>, t: real)
    ensures Deque(l, calls + [t]) == NextQueue(l, Deque(l, calls), t)
  {
    assert (calls + [t])[..|calls|] == calls;
  }

  method DropOld(l: Limit, q: seq<real>, t: real) returns (kept: seq<real>)
    ensures kept == Pruned(l, q, t)
  {
    kept := q;
    while kept != [] && t - kept[0] >= l.period
      invariant Pruned(l, kept, t) == Pruned(l, q, t)
      decreases |kept|
    {
      kept := kept[1..];
    }
  }

  /** One bucket for every host; `calls` remembers when each host was asked for. */
  class TokenBucket {
    const limit: Limit
    var times: map<string, seq<real>>
    ghost var calls: map<string, seq<real>>

    ghost function CallsTo(host: string): seq<real>
      reads this
    {
      if host in calls then calls[host] else []
    }

    ghost predicate Valid()
      reads this
    {
      && times.Keys == calls.Keys
      && forall h :: h in times ==> times[h] == Deque(limit, calls[h])
    }

    constructor (limit: Limit)
      ensures Valid() && this.limit == limit && times == map[]
    {
      this.limit, times, calls := limit, map[], map[];
    }

    /** Decided as if every grant ever made to this host were remembered; other hosts do not matter. */
    method Acquire(host: string, t: real, jitter: real) returns (a: Answer)
      requires Valid()
      modifies this
      ensures Valid()
      ensures calls == old(calls)[host := old(CallsTo(host)) + [t]]
      ensures times == old(times)[host := Deque(limit, calls[host])]
      ensures a == AnswerTo(limit, Deque(limit, old(CallsTo(host))), t, jitter)
      ensures NonDecreasing(calls[host]) ==>
        (a == Granted <==> |Recent(limit, Grants(limit, old(CallsTo(host))), t)| < limit.capacity)
    {
      hide Deque, Grants, Recent, NonDecreasing;
      ghost var before := CallsTo(host);
      var bucket: seq<real> := if host in times then times[host] else [];
      assert bucket == Deque(limit, before) by {
        EmptyDeque(limit);
      }
      bucket := DropOld(limit, bucket, t);
      if |bucket| < limit.capacity {
        bucket := bucket + [t];
        a := Granted;
      } else if bucket == [] {
        a := Crash;
      } else {
        var wait := limit.period - (t - bucket[0]) + jitter;
        a := Wait(if wait > 0.0 then wait else 0.0);
      }
      DequeSnoc(limit, before, t);
      times := times[host := bucket];
      calls := calls[host := before + [t]];
      if NonDecreasing(before + [t]) {
        DequeIsRecent(limit, before, t);
      }
    }
  }

  // The deque refines the history.

  lemma {:induction false} PrunedIsRecent(l: Limit, q: seq<real>, t: real)
    requires NonDecreasing(q)
    ensures Pruned(l, q, t) == Recent(l, q, t)
    decreases |q|
  {
    if q != [] {
      if t - q[0] >= l.period {
        PrunedIsRecent(l, q[1..], t);
      } else {
        forall x | x in q
          ensures t - x < l.period
        {
        }
        FilterAll((x: real) => t - x < l.period, q);
      }
    }
  }

  lemma {:induction false} RecentLater(l: Limit, g: seq<real>, t: real, later: real)
    requires t <= later
    ensures Recent(l, Recent(l, g, t), later) == Recent(l, g, later)
    decreases |g|
  {
    if g != [] {
      RecentLater(l, g[1..], t, later);
    }
  }

  lemma RecentSnoc(l: Limit, g: seq<real>, x: real, t: real)
    ensures Recent(l, g + [x], t) == Recent(l, g, t) + if t - x < l.period then [x] else []
  {
    var keep := (y: real) => t - y < l.period;
    FilterAppend(keep, g, [x]);
    assert [x][1..] == [];
  }

  lemma OrderedSnoc(q: seq<real>, x: real)
    requires NonDecreasing(q) && forall y :: y in q ==> y <= x
    ensures NonDecreasing(q + [x])
  {
    forall i | 0 <= i < |q|
      ensures q[i] <= x
    {
      assert q[i] in q;
    }
  }

  lemma {:induction false} QueueIsOrdered(l: Limit, calls: seq<real>)
    requires NonDecreasing(calls)
    ensures NonDecreasing(Deque(l, calls))
    ensures forall x :: x in Deque(l, calls) ==> x in calls
    ensures |Deque(l, calls)| <= Max(l.capacity, 0)
    decreases |calls|
  {
    if calls != [] {
      var n := |calls| - 1;
      QueueIsOrdered(l, calls[..n]);
      var q := Deque(l, calls[..n]);
      PrunedIsSuffix(l, q, calls[n]);
      forall x | x in q
        ensures x in calls && x <= calls[n]
      {
        var i :| 0 <= i < n && calls[..n][i] == x;
        assert calls[i] == x;
      }
      OrderedSnoc(Pruned(l, q, calls[n]), calls[n]);
    }
  }

  lemma {:induction false} PrunedIsSuffix(l: Limit, q: seq<real>, t: real)
    ensures |Pruned(l, q, t)| <= |q| && Pruned(l, q, t) == q[|q| - |Pruned(l, q, t)|..]
    ensures forall x :: x in Pruned(l, q, t) ==> x in q
    decreases |q|
  {
    if q != [] && t - q[0] >= l.period {
      PrunedIsSuffix(l, q[1..], t);
    }
  }

  /** At every later moment the pruned deque is exactly the grants younger than the period. */
  lemma {:induction false} DequeIsRecent(l: Limit, calls: seq<real>, t: real)
    requires NonDecreasing(calls + [t])
    ensures Pruned(l, Deque(l, calls), t) == Recent(l, Grants(l, calls), t)
    decreases |calls|
  {
    assert forall i :: 0 <= i < |calls| ==> calls[i] == (calls + [t])[i];
    QueueIsOrdered(l, calls);
    PrunedIsRecent(l, Deque(l, calls), t);
    if calls != [] {
      var n := |calls| - 1;
      var last, earlier := calls[n], Grants(l, calls[..n]);
      assert calls[..n] + [last] == calls;
      DequeIsRecent(l, calls[..n], last);
      assert last <= (calls + [t])[|calls|];
      RecentLater(l, earlier, last, t);
      RecentSnoc(l, earlier, last, t);
      RecentSnoc(l, Recent(l, earlier, last), last, t);
    }
  }

  /** With a positive period the deque itself is the grants younger than the period. */
  lemma DequeIsYoungGrants(l: Limit, calls: seq<real>)
    requires calls != [] && NonDecreasing(calls) && l.period > 0.0
    ensures Deque(l, calls) == Recent(l, Grants(l, calls), calls[|calls| - 1])
  {
    var n := |calls| - 1;
    var last := calls[n];
    assert calls[..n] + [last] == calls;
    DequeIsRecent(l, calls[..n], last);
    RecentSnoc(l, Grants(l, calls[..n]), last, last);
  }

  // The rate.

  function InStretch(l: Limit, grants: seq<real>, lo: real): seq<real> {
    Filter((x: real) => lo <= x < lo + l.period, grants)
  }

  lemma {:induction false} StretchWithinRecent(l: Limit, g: seq<real>, lo: real, t: real)
    requires lo <= t < lo + l.period
    ensures |InStretch(l, g, lo)| <= |Recent(l, g, t)|
    decreases |g|
  {
    if g != [] {
      StretchWithinRecent(l, g[1..], lo, t);
    }
  }

  lemma InStretchAppend(l: Limit, a: seq<real>, b: seq<real>, lo: real)
    ensures InStretch(l, a + b, lo) == InStretch(l, a, lo) + InStretch(l, b, lo)
  {
    FilterAppend((x: real) => lo <= x < lo + l.period, a, b);
  }

  lemma StretchSnoc(l: Limit, g: seq<real>, x: real, lo: real)
    ensures InStretch(l, g + [x], lo) == InStretch(l, g, lo) + if lo <= x < lo + l.period then [x] else []
  {
    FilterAppend((y: real) => lo <= y < lo + l.period, g, [x]);
    assert [x][1..] == [];
  }

  /** Any stretch of one period, wherever it starts, holds at most `capacity` immediate grants. */
  lemma {:induction false} RateHolds(l: Limit, calls: seq<real>, lo: real)
    ensures |InStretch(l, Grants(l, calls), lo)| <= Max(l.capacity, 0)
    decreases |calls|
  {
    if calls != [] {
      var n := |calls| - 1;
      var earlier := Grants(l, calls[..n]);
      RateHolds(l, calls[..n], lo);
      StretchSnoc(l, earlier, calls[n], lo);
      if lo <= calls[n] < lo + l.period {
        StretchWithinRecent(l, earlier, lo, calls[n]);
      }
    }
  }

  /** Whoever waits as long as told, and is not overtaken, is granted. */
  lemma WaitingPays(l: Limit, calls: seq<real>, t: real, jitter: real, again: real)
    requires NonDecreasing(calls) && 0.0 <= jitter
    requires var a := AnswerTo(l, Deque(l, calls), t, jitter); a.Wait? && again >= t + a.seconds
    ensures AnswerTo(l, Deque(l, calls + [t]), again, jitter) == Granted
  {
    hide Deque, NonDecreasing, Pruned;
    DequeSnoc(l, calls, t);
    QueueIsOrdered(l, calls);
    PrunedIsSuffix(l, Deque(l, calls), t);
    PrunedDropsFront(l, Pruned(l, Deque(l, calls), t), again);
  }

  lemma PrunedDropsFront(l: Limit, q: seq<real>, t: real)
    requires q != []
    ensures t - q[0] >= l.period ==> |Pruned(l, q, t)| < |q|
  {
    PrunedIsSuffix(l, q[1..], t);
  }

  /** The crash is what a bucket without capacity answers, and nothing else ever does. */
  lemma CrashesWithoutCapacity(l: Limit, calls: seq<real>, t: real, jitter: real)
    ensures AnswerTo(l, Deque(l, calls), t, jitter) == Crash <==> l.capacity <= 0
  {
    if l.capacity <= 0 {
      NoCapacityEmpty(l, calls);
    }
  }

  lemma {:induction false} NoCapacityEmpty(l: Limit, calls: seq<real>)
    requires l.capacity <= 0
    ensures Deque(l, calls) == []
    decreases |calls|
  {
    if calls != [] {
      NoCapacityEmpty(l, calls[..|calls| - 1]);
    }
  }

  // When the requests go out. A call told to wait goes out after the wait, without asking again and without
  // being recorded.

  datatype Call = Call(at: real, jitter: real)

  function Times(calls: seq<Call>): seq<real> {
    seq(|calls|, i requires 0 <= i < |calls| => calls[i].at)
  }

  /** The answer to call `i` of a run on one host. */
  function AnswerAt(l: Limit, calls: seq<Call>, i: nat): Answer
    requires i < |calls|
  {
    AnswerTo(l, Deque(l, Times(calls[..i])), calls[i].at, calls[i].jitter)
  }

  /** The moment at which the request of an answered call goes out. */
  function Departure(call: Call, a: Answer): seq<real> {
    match a
    case Granted => [call.at]
    case Wait(seconds) => [call.at + seconds]
    case Crash => []
  }

  function Departures(l: Limit, calls: seq<Call>): seq<real> {
    if calls == [] then []
    else
      var n := |calls| - 1;
      Departures(l, calls[..n]) + Departure(calls[n], AnswerAt(l, calls, n))
  }

  ghost predicate NoWait(l: Limit, calls: seq<Call>) {
    forall i :: 0 <= i < |calls| ==> !AnswerAt(l, calls, i).Wait?
  }

  lemma AnswerOfFront(l: Limit, calls: seq<Call>, n: nat, i: nat)
    requires i < n <= |calls|
    ensures AnswerAt(l, calls[..n], i) == AnswerAt(l, calls, i)
  {
    assert calls[..n][..i] == calls[..i];
  }

  lemma TimesFront(calls: seq<Call>)
    requires calls != []
    ensures var n := |calls| - 1; Times(calls) == Times(calls[..n]) + [calls[n].at]
  {
  }

  /** As long as nobody is told to wait, the requests are exactly the immediate grants. */
  lemma {:induction false} DeparturesAreGrants(l: Limit, calls: seq<Call>)
    requires NonDecreasing(Times(calls)) && NoWait(l, calls)
    ensures Departures(l, calls) == Grants(l, Times(calls))
    decreases |calls|
  {
    if calls != [] {
      var n := |calls| - 1;
      var front, t := calls[..n], calls[n].at;
      TimesFront(calls);
      assert forall i :: 0 <= i < n ==> Times(front)[i] == Times(calls)[i];
      forall i | 0 <= i < n
        ensures !AnswerAt(l, front, i).Wait?
      {
        AnswerOfFront(l, calls, n, i);
      }
      DeparturesAreGrants(l, front);
      assert Times(calls)[..n] == Times(front);
      DequeIsRecent(l, Times(front), t);
      CrashesWithoutCapacity(l, Times(front), t, calls[n].jitter);
      assert !AnswerAt(l, calls, n).Wait?;
    }
  }

  /** The promise holds for every run in which no call is told to wait: no stretch of one period, wherever
      it starts, sees more than `capacity` requests. */
  lemma PromiseWithoutWaits(l: Limit, calls: seq<Call>, lo: real)
    requires NonDecreasing(Times(calls)) && NoWait(l, calls)
    ensures |InStretch(l, Departures(l, calls), lo)| <= Max(l.capacity, 0)
  {
    DeparturesAreGrants(l, calls);
    RateHolds(l, Times(calls), lo);
  }

  // And it breaks as soon as one call is told to wait.

  /** Calls at one moment, each with its own jitter. */
  function CallsAt(t: real, jitters: seq<real>): seq<Call> {
    seq(|jitters|, i requires 0 <= i < |jitters| => Call(t, jitters[i]))
  }

  /** A call that is told to wait leaves the deque pruned and no more; whoever calls at the same moment is
      told to wait too, for the same front of the deque. */
  lemma WaitLeavesPruned(l: Limit, q: seq<real>, t: real, jitter: real)
    requires AnswerTo(l, q, t, jitter).Wait?
    ensures NextQueue(l, q, t) == Pruned(l, q, t) && Pruned(l, Pruned(l, q, t), t) == Pruned(l, q, t)
    ensures Pruned(l, q, t) != [] && t - Pruned(l, q, t)[0] < l.period
  {
    PruningTwice(l, q, t);
  }

  lemma {:induction false} PruningTwice(l: Limit, q: seq<real>, t: real)
    ensures Pruned(l, Pruned(l, q, t), t) == Pruned(l, q, t)
    ensures Pruned(l, q, t) != [] ==> t - Pruned(l, q, t)[0] < l.period
    decreases |q|
  {
    if q != [] && t - q[0] >= l.period {
      PruningTwice(l, q[1..], t);
    }
  }

  /** Departures of calls at one moment when the first of them is told to wait. */
  function Delayed(front: real, period: real, jitters: seq<real>): seq<real> {
    seq(|jitters|, i requires 0 <= i < |jitters| => front + period + jitters[i])
  }

  /** Whoever calls at `t` now is told to wait for the front of `kept`. */
  ghost predicate Stuck(l: Limit, calls: seq<Call>, t: real, kept: seq<real>) {
    && Pruned(l, Deque(l, Times(calls)), t) == kept
    && kept != [] && |kept| >= l.capacity && t - kept[0] < l.period
  }

  lemma {:induction false} AllToldToWait(l: Limit, before: seq<Call>, t: real, kept: seq<real>, jitters: seq<real>)
    requires Stuck(l, before, t, kept) && kept != [] && forall i :: 0 <= i < |jitters| ==> jitters[i] >= 0.0
    ensures Stuck(l, before + CallsAt(t, jitters), t, kept)
    ensures Departures(l, before + CallsAt(t, jitters)) == Departures(l, before) + Delayed(kept[0], l.period, jitters)
    decreases |jitters|
  {
    hide Stuck, Departures;
    if jitters == [] {
      assert before + CallsAt(t, jitters) == before;
    } else {
      var n := |jitters| - 1;
      var front := before + CallsAt(t, jitters[..n]);
      AllToldToWait(l, before, t, kept, jitters[..n]);
      AnotherWaits(l, front, Call(t, jitters[n]), kept);
      CallsAtSnoc(t, jitters);
      DelayedSnoc(kept[0], l.period, jitters);
      assert before + CallsAt(t, jitters) == front + [Call(t, jitters[n])];
    }
  }

  lemma CallsAtSnoc(t: real, jitters: seq<real>)
    requires jitters != []
    ensures var n := |jitters| - 1; CallsAt(t, jitters) == CallsAt(t, jitters[..n]) + [Call(t, jitters[n])]
  {
  }

  lemma DelayedSnoc(front: real, period: real, jitters: seq<real>)
    requires jitters != []
    ensures var n := |jitters| - 1;
      Delayed(front, period, jitters) == Delayed(front, period, jitters[..n]) + [front + period + jitters[n]]
  {
  }

  lemma AnotherWaits(l: Limit, front: seq<Call>, last: Call, kept: seq<real>)
    requires Stuck(l, front, last.at, kept) && kept != [] && last.jitter >= 0.0
    ensures Stuck(l, front + [last], last.at, kept)
    ensures Departures(l, front + [last]) == Departures(l, front) + [kept[0] + l.period + last.jitter]
  {
    hide Pruned, Deque;
    var all := front + [last];
    assert all[..|front|] == front && all[..|all| - 1] == front;
    TimesFront(all);
    DequeSnoc(l, Times(front), last.at);
    PruningTwice(l, Deque(l, Times(front)), last.at);
    assert AnswerAt(l, all, |front|) == Wait(l.period - (last.at - kept[0]) + last.jitter);
  }

  /** From any run whatever: if a call at `t` is told to wait, then all calls at `t` from there on go out
      within one period, however many they are, as long as their jitters differ by less than a period. */
  lemma DelayedCallsAreUnbounded(l: Limit, before: seq<Call>, t: real, jitters: seq<real>, least: real)
    requires jitters != [] && AnswerTo(l, Deque(l, Times(before)), t, jitters[0]).Wait?
    requires forall j :: j in jitters ==> 0.0 <= least <= j < least + l.period
    ensures exists lo :: |InStretch(l, Departures(l, before + CallsAt(t, jitters)), lo)| >= |jitters|
  {
    var kept := Pruned(l, Deque(l, Times(before)), t);
    WaitLeavesPruned(l, Deque(l, Times(before)), t, jitters[0]);
    assert Stuck(l, before, t, kept);
    forall i | 0 <= i < |jitters|
      ensures jitters[i] >= 0.0
    {
      assert jitters[i] in jitters;
    }
    hide Stuck, Pruned, Deque, Departures, AnswerTo, Times, InStretch, CallsAt;
    AllToldToWait(l, before, t, kept, jitters);
    var front := kept[0];
    var lo := front + l.period + least;
    DelayedInStretch(l, front, jitters, least);
    InStretchAppend(l, Departures(l, before), Delayed(front, l.period, jitters), lo);
    assert |InStretch(l, Departures(l, before + CallsAt(t, jitters)), lo)| >= |jitters|;
  }

  lemma DelayedInStretch(l: Limit, front: real, jitters: seq<real>, least: real)
    requires forall j :: j in jitters ==> least <= j < least + l.period
    ensures InStretch(l, Delayed(front, l.period, jitters), front + l.period + least)
         == Delayed(front, l.period, jitters)
  {
    var late, lo := Delayed(front, l.period, jitters), front + l.period + least;
    forall x | x in late
      ensures lo <= x < lo + l.period
    {
      var i :| 0 <= i < |late| && late[i] == x;
      assert jitters[i] in jitters;
    }
    FilterAll((x: real) => lo <= x < lo + l.period, late);
  }

  /** So that call and `capacity` further ones break the promise. */
  lemma PromiseBreaksAfterWait(l: Limit, before: seq<Call>, t: real, jitters: seq<real>, least: real)
    requires |jitters| == l.capacity + 1 > 0 && AnswerTo(l, Deque(l, Times(before)), t, jitters[0]).Wait?
    requires forall j :: j in jitters ==> 0.0 <= least <= j < least + l.period
    ensures exists lo :: |InStretch(l, Departures(l, before + CallsAt(t, jitters)), lo)| > l.capacity
  {
    DelayedCallsAreUnbounded(l, before, t, jitters, least);
  }

  // Every limit with some capacity and a positive period has such a run.

  function Burst(n: nat): seq<real> {
    seq(n, i => 0.0)
  }

  lemma {:induction false} BurstFillsDeque(l: Limit, n: nat)
    requires l.period > 0.0
    ensures Deque(l, Burst(n)) == Burst(if n <= l.capacity then n else Max(l.capacity, 0))
    decreases n
  {
    if n > 0 {
      assert Burst(n)[..n - 1] == Burst(n - 1) && Burst(n)[n - 1] == 0.0;
      BurstFillsDeque(l, n - 1);
    }
  }

  function Same(n: nat, x: real): seq<real> {
    seq(n, i => x)
  }

  lemma BurstBreaksPromise(l: Limit, jitter: real)
    requires l.capacity >= 1 && l.period > 0.0 && jitter >= 0.0
    ensures var calls := CallsAt(0.0, Same(l.capacity, jitter)) + CallsAt(0.0, Same(l.capacity + 1, jitter));
      exists lo :: |InStretch(l, Departures(l, calls), lo)| > l.capacity
  {
    var before := CallsAt(0.0, Same(l.capacity, jitter));
    assert Times(before) == Burst(l.capacity);
    BurstFillsDeque(l, l.capacity);
    PromiseBreaksAfterWait(l, before, 0.0, Same(l.capacity + 1, jitter), jitter);
  }
}
