/** Delivery of one book, or of a batch, with Send-to-Kindle first and SMTP as the fallback. */
module Router {
  import opened Prelude
  import opened Quota

  datatype Means = Stk | Smtp

  datatype DeliveryResult = DeliveryResult(ok: bool, means: Means, attempts: nat)

  datatype SendOutcome = Accepted | AuthExpired | RateLimited | UploadFailed | NotConfigured

  datatype StkConfig = StkConfig(
    dailyCap: Option<int>,
    maxAttempts: int,
    maxBatchBytes: int,
    maxBatchFiles: int)

  /** The two outside services. Each call may succeed or fail as it likes, unless the services are
      `reliable`; what they accepted, and how each Send-to-Kindle call ended, is kept. */
  class Channels {
    const reliable: bool
    var stkAccepted: seq<nat>
    var smtpAccepted: seq<nat>
    var stkOutcomes: seq<SendOutcome>
    var smtpCalls: nat

    constructor (reliable: bool)
      ensures this.reliable == reliable
      ensures stkAccepted == smtpAccepted == [] && stkOutcomes == [] && smtpCalls == 0
    {
      this.reliable, stkAccepted, smtpAccepted, stkOutcomes, smtpCalls := reliable, [], [], [], 0;
    }

    method StkSend(book: nat) returns (o: SendOutcome)
      modifies this`stkAccepted, this`stkOutcomes
      ensures stkAccepted == if o.Accepted? then old(stkAccepted) + [book] else old(stkAccepted)
      ensures stkOutcomes == old(stkOutcomes) + [o]
      ensures reliable ==> o == Accepted
    {
      o := *;
      if reliable {
        o := Accepted;
      }
      stkOutcomes := stkOutcomes + [o];
      if o.Accepted? {
        stkAccepted := stkAccepted + [book];
      }
    }

    method SmtpSend(book: nat) returns (ok: bool)
      modifies this`smtpAccepted, this`smtpCalls
      ensures smtpAccepted == if ok then old(smtpAccepted) + [book] else old(smtpAccepted)
      ensures smtpCalls == old(smtpCalls) + 1
    {
      ok := *;
      smtpCalls := smtpCalls + 1;
      if ok {
        smtpAccepted := smtpAccepted + [book];
      }
    }
  }

  /** The SMTP attempt, refused up front when the rolling count has reached the cap. */
  method SmtpDeliver(net: Channels, log: EventLog, book: nat, smtpCap: int) returns (ok: bool)
    modifies net`smtpAccepted, net`smtpCalls, log`now
    ensures log.now >= old(log.now)
    ensures net.smtpAccepted == if ok then old(net.smtpAccepted) + [book] else old(net.smtpAccepted)
    ensures SmtpQuota(log.events, old(log.now), smtpCap).Exhausted() ==> !ok && net.smtpCalls == old(net.smtpCalls)
    ensures !SmtpQuota(log.events, old(log.now), smtpCap).Exhausted() ==> net.smtpCalls == old(net.smtpCalls) + 1
    ensures ok ==> GatePassed(log.events, smtpCap, log.now)
  {
    if smtpCap > 0 {
      var qs := SmtpQuota(log.events, log.now, smtpCap);
      if qs.Exhausted() {
        return false;
      }
    }
    ok := net.SmtpSend(book);
    log.Sleep();
    GateStaysPassed(log.events, smtpCap, old(log.now), log.now);
  }

  /** How the retry loop may have gone: every call but the last failed in a way worth retrying, the
      last one was accepted, or the loop ran out of attempts, or the credentials had expired. */
  predicate RetryHistory(os: seq<SendOutcome>, maxAttempts: int, accepted: bool) {
    && |os| <= Max(0, maxAttempts)
    && (forall i :: 0 <= i < |os| - 1 ==> os[i] in {RateLimited, UploadFailed, NotConfigured})
    && (accepted <==> os != [] && os[|os| - 1] == Accepted)
    && (accepted || |os| == Max(0, maxAttempts) || (os != [] && os[|os| - 1] == AuthExpired))
  }

  /** The retry loop: up to `maxAttempts` calls with a pause before each and a backoff between them. */
  method TryStk(net: Channels, log: EventLog, book: nat, maxAttempts: int)
    returns (accepted: bool, attempt: nat, ghost tried: seq<SendOutcome>)
    modifies net`stkAccepted, net`stkOutcomes, log
    ensures log.now >= old(log.now)
    ensures net.stkOutcomes == old(net.stkOutcomes) + tried && RetryHistory(tried, maxAttempts, accepted)
    ensures net.stkAccepted == if accepted then old(net.stkAccepted) + [book] else old(net.stkAccepted)
    ensures attempt == Max(1, |tried|)
    ensures Logged(old(log.events), log.events, if accepted then [Entry(SendStk, Some(book))] else [],
                   old(log.now), log.now)
  {
    attempt, tried := 1, [];
    ghost var earlier := net.stkOutcomes;
    var n := 1;
    while n <= maxAttempts
      invariant 1 <= n <= Max(0, maxAttempts) + 1
      invariant attempt == Max(1, n - 1)
      invariant |tried| == n - 1 && net.stkOutcomes == earlier + tried
      invariant forall i :: 0 <= i < |tried| ==> tried[i] in {RateLimited, UploadFailed, NotConfigured}
      invariant net.stkAccepted == old(net.stkAccepted)
      invariant log.events == old(log.events) && log.now >= old(log.now)
      decreases maxAttempts - n
    {
      attempt := n;
      log.Sleep();
      var o := net.StkSend(book);
      tried := tried + [o];
      assert earlier + tried[..n - 1] + [o] == earlier + tried;
      if o.Accepted? {
        ghost var earlier := log.events;
        log.Record(SendStk, Some(book));
        LoggedOne(earlier, log.events[|earlier|], old(log.now), log.now);
        return true, attempt, tried;
      }
      if o.AuthExpired? {
        LoggedNone(log.events, old(log.now), log.now);
        return false, attempt, tried;
      }
      if attempt < maxAttempts {
        log.Sleep();
      }
      n := n + 1;
    }
    accepted := false;
    LoggedNone(log.events, old(log.now), log.now);
  }

  /** What the audit log says about one delivery. */
  function DeliveryEntries(book: nat, means: Means, configured: bool): seq<Entry> {
    if !configured then []
    else [Entry(if means == Stk then SendStk else SendStkFailed, Some(book))]
  }

  /** Send one book. At most one channel accepts it, it is accepted exactly when the result says so,
      and one audit event tells which way it went. The check against the daily cap and the record of
      the send are separated by all the retries; no 24 h window grows beyond the cap all the same, whatever
      earlier windows held. */
  method Deliver(net: Channels, log: EventLog, book: nat, cfg: StkConfig, smtpCap: int, configured: bool)
    returns (r: DeliveryResult)
    modifies net, log
    ensures log.now >= old(log.now)
    // Who has the book now.
    ensures net.stkAccepted == if r.ok && r.means == Stk then old(net.stkAccepted) + [book] else old(net.stkAccepted)
    ensures net.smtpAccepted ==
      if r.ok && r.means == Smtp then old(net.smtpAccepted) + [book] else old(net.smtpAccepted)
    ensures r.means == Stk ==> r.ok && configured && net.smtpCalls == old(net.smtpCalls)
    // How it got there.
    ensures |old(net.stkOutcomes)| <= |net.stkOutcomes|
    ensures net.stkOutcomes[..|old(net.stkOutcomes)|] == old(net.stkOutcomes)
    ensures var tried := net.stkOutcomes[|old(net.stkOutcomes)|..];
      var capped := cfg.dailyCap.Some? && StkQuota(old(log.events), old(log.now), cfg.dailyCap.value).exhausted;
      if !configured || capped then
        tried == [] && r.attempts == 1
      else
        && RetryHistory(tried, cfg.maxAttempts, r.means == Stk)
        && r.attempts == (if r.means == Stk then |tried| else Max(1, |tried|) + 1)
    // What the audit log says.
    ensures Logged(old(log.events), log.events, DeliveryEntries(book, r.means, configured), old(log.now), log.now)
    // The rolling caps.
    ensures cfg.dailyCap.Some? ==> GrowsWithin(old(log.events), log.events, SendStk, cfg.dailyCap.value)
    ensures SameFor(old(log.events), log.events, SendSmtp)
    ensures r.ok && r.means == Smtp ==> GatePassed(log.events, smtpCap, log.now)
  {
    hide Logged, GrowsWithin, SameFor;
    ghost var before, checked := log.events, log.now;
    if !configured {
      var ok := SmtpDeliver(net, log, book, smtpCap);
      NothingLogged(before, checked, log.now, cfg);
      return DeliveryResult(ok, Smtp, 1);
    }
    if cfg.dailyCap.Some? {
      var status := StkQuota(log.events, log.now, cfg.dailyCap.value);
      if status.exhausted {
        log.Record(SendStkFailed, Some(book));
        ghost var moment := log.now;
        var ok := SmtpDeliver(net, log, book, smtpCap);
        FailureLogged(before, log.events[|before|], checked, moment, log.now, cfg);
        return DeliveryResult(ok, Smtp, 1);
      }
    }
    var accepted, attempt;
    ghost var tried;
    accepted, attempt, tried := TryStk(net, log, book, cfg.maxAttempts);
    assert net.stkOutcomes[|old(net.stkOutcomes)|..] == tried;
    if accepted {
      LoggedSingle(before, log.events, Entry(SendStk, Some(book)), checked, log.now);
      if cfg.dailyCap.Some? {
        LateRecordKeepsCap(before, SendStk, cfg.dailyCap.value, checked, log.events[|before|]);
      }
      return DeliveryResult(true, Stk, attempt);
    }
    LoggedNothing(before, log.events, checked, log.now);
    log.Record(SendStkFailed, Some(book));
    ghost var moment := log.now;
    var ok := SmtpDeliver(net, log, book, smtpCap);
    FailureLogged(before, log.events[|before|], checked, moment, log.now, cfg);
    r := DeliveryResult(ok, Smtp, attempt + 1);
  }

  lemma NothingLogged(before: seq<Event>, checked: int, now: int, cfg: StkConfig)
    ensures Logged(before, before, [], checked, now) && SameFor(before, before, SendSmtp)
    ensures cfg.dailyCap.Some? ==> GrowsWithin(before, before, SendStk, cfg.dailyCap.value)
  {
  }

  lemma FailureLogged(before: seq<Event>, e: Event, checked: int, moment: int, now: int, cfg: StkConfig)
    requires e.kind == SendStkFailed && checked <= e.ts <= moment <= now
    ensures Logged(before, before + [e], [Entry(SendStkFailed, e.book)], checked, now)
    ensures SameFor(before, before + [e], SendSmtp)
    ensures cfg.dailyCap.Some? ==> GrowsWithin(before, before + [e], SendStk, cfg.dailyCap.value)
  {
    hide Logged, SameFor, GrowsWithin;
    LoggedOne(before, e, checked, moment);
    LoggedLonger(before, before + [e], [Entry(SendStkFailed, e.book)], checked, moment, now);
    LoggedSingle(before, before + [e], Entry(SendStkFailed, e.book), checked, now);
    if cfg.dailyCap.Some? {
      SameForGrowsWithin(before, before + [e], SendStk, cfg.dailyCap.value);
    }
  }
}
