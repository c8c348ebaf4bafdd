/** The sliding-log limiter (internal/ratelimiter/sliding-log.go). Times are nanoseconds. */
module SlidingLog {
  import opened Arithmetic
  import opened Limits
  import opened History

  datatype Log = Log(requests: seq<Charge>, used: int)

  const EMPTY: Log := Log([], 0)

  function Total(xs: seq<Charge>): int {
    if xs == [] then 0 else xs[0].cost + Total(xs[1..])
  }

  /** Drops the leading requests that are no later than the cutoff. */
  function Prune(xs: seq<Charge>, cutoff: int): seq<Charge> {
    if xs != [] && xs[0].at <= cutoff then Prune(xs[1..], cutoff) else xs
  }

  /** The log once requests older than a window have been removed. */
  function Active(p: Policy, log: Log, now: int): Log {
    var kept := Prune(log.requests, now - p.window);
    Log(kept, log.used - (Total(log.requests) - Total(kept)))
  }

  /** The expiry of the first request by which `required` has been released. */
  function FirstRelease(xs: seq<Charge>, required: int, window: int, now: int): int {
    if xs == [] then now + window
    else if xs[0].cost >= required then xs[0].at + window
    else FirstRelease(xs[1..], required - xs[0].cost, window, now)
  }

  /** One `Allow` call on one key: the stored log afterwards, and the answer. */
  function Step(p: Policy, stored: Log, now: int, cost: int): (Log, Outcome) {
    if cost <= 0 then (stored, Refused(InvalidCost))
    else
      var log := Active(p, stored, now);
      var remaining := p.limit - log.used;
      if cost > remaining then
        var resetAt := FirstRelease(log.requests, cost - remaining, p.window, now);
        (log, Decided(Decision(false, p.limit, remaining, resetAt, TruncatedRetryMS(resetAt - now))))
      else
        var requests := log.requests + [Charge(now, cost)];
        (Log(requests, log.used + cost),
         Decided(Decision(true, p.limit, remaining - cost, requests[0].at + p.window, 0)))
  }

  function Lookup(logs: map<Key, Log>, key: Key): Log {
    if key in logs then logs[key] else EMPTY
  }

  /** One `Allow` call on whichever key: every stored log afterwards, and the answer. */
  function Serve(policies: map<Key, Policy>, logs: map<Key, Log>, call: Call): (map<Key, Log>, Outcome) {
    if call.cancelled then (logs, Refused(Cancelled))
    else if call.cost <= 0 then (logs, Refused(InvalidCost))
    else if call.key !in policies then (logs, Refused(NoPolicy))
    else
      var (log, o) := Step(policies[call.key], Lookup(logs, call.key), call.at, call.cost);
      (logs[call.key := log], o)
  }

  lemma {:induction false} TotalAppend(xs: seq<Charge>, x: Charge)
    ensures Total(xs + [x]) == Total(xs) + x.cost
  {
    if xs != [] {
      TotalAppend(xs[1..], x);
      assert (xs + [x])[1..] == xs[1..] + [x];
    } else {
      assert ([x])[1..] == [];
    }
  }

  class SlidingLogRateLimiter {
    const policies: map<Key, Policy>
    var logs: map<Key, Log>

    constructor (policies: map<Key, Policy>)
      requires ValidPolicies(policies)
      ensures this.policies == policies && logs == map[]
    {
      this.policies := policies;
      logs := map[];
    }

    function Stored(key: Key): Log
      reads this
    {
      Lookup(logs, key)
    }

    /** A limiter, unless a policy is invalid. */
    static method New(policies: map<Key, Policy>) returns (r: Option<SlidingLogRateLimiter>)
      ensures r.Some? <==> (forall k <- policies ::
                             k.clientID != [] && k.resource != [] && policies[k].limit > 0 && policies[k].window > 0)
      ensures r.Some? ==> fresh(r.value) && r.value.policies == policies && r.value.logs == map[]
    {
      if !ValidPolicies(policies) {
        return None;
      }
      var limiter := new SlidingLogRateLimiter(policies);
      return Some(limiter);
    }

    /** Removes requests that no longer count, subtracting each one's cost as it goes. */
    method ActiveLog(key: Key, policy: Policy, now: int) returns (log: Log)
      ensures log == Active(policy, Stored(key), now)
    {
      log := Stored(key);
      var cutoff := now - policy.window;
      var firstActive := 0;
      var used := log.used;
      while firstActive < |log.requests| && log.requests[firstActive].at <= cutoff
        invariant 0 <= firstActive <= |log.requests|
        invariant Prune(log.requests, cutoff) == Prune(log.requests[firstActive..], cutoff)
        invariant used == log.used - (Total(log.requests) - Total(log.requests[firstActive..]))
      {
        assert log.requests[firstActive..][1..] == log.requests[firstActive + 1..];
        used := used - log.requests[firstActive].cost;
        firstActive := firstActive + 1;
      }
      log := Log(log.requests[firstActive..], used);
    }

    /** Finds when enough recorded cost expires for the request. */
    static method NextAvailability(log: Log, policy: Policy, cost: int, now: int) returns (at: int)
      ensures at == FirstRelease(log.requests, cost - (policy.limit - log.used), policy.window, now)
    {
      var required := cost - (policy.limit - log.used);
      var released := 0;
      var i := 0;
      while i < |log.requests|
        invariant 0 <= i <= |log.requests|
        invariant FirstRelease(log.requests, required, policy.window, now)
                  == FirstRelease(log.requests[i..], required - released, policy.window, now)
      {
        assert log.requests[i..][1..] == log.requests[i + 1..];
        released := released + log.requests[i].cost;
        if released >= required {
          return log.requests[i].at + policy.window;
        }
        i := i + 1;
      }
      at := now + policy.window;
    }

    method Allow(cancelled: bool, now: int, key: Key, cost: int) returns (outcome: Outcome)
      modifies this
      ensures (logs, outcome) == Serve(policies, old(logs), Call(cancelled, now, key, cost))
      ensures cancelled ==> outcome == Refused(Cancelled)
      ensures !cancelled && key !in policies ==>
                outcome == Refused(if cost <= 0 then InvalidCost else NoPolicy)
      ensures cancelled || key !in policies ==> logs == old(logs)
      ensures !cancelled && key in policies ==>
                (Stored(key), outcome) == Step(policies[key], old(Stored(key)), now, cost)
      ensures forall k :: k != key ==> Stored(k) == old(Stored(k))
    {
      if cancelled {
        return Refused(Cancelled);
      }
      if cost <= 0 {
        return Refused(InvalidCost);
      }
      if key !in policies {
        return Refused(NoPolicy);
      }
      var policy := policies[key];
      var log := ActiveLog(key, policy, now);
      logs := logs[key := log];
      var remaining := policy.limit - log.used;
      if cost > remaining {
        var resetAt := NextAvailability(log, policy, cost, now);
        return Decided(Decision(false, policy.limit, remaining, resetAt, TruncatedRetryMS(resetAt - now)));
      }
      log := Log(log.requests + [Charge(now, cost)], log.used + cost);
      logs := logs[key := log];
      assert logs == old(logs)[key := log];
      return Decided(Decision(true, policy.limit, policy.limit - log.used, log.requests[0].at + policy.window, 0));
    }
  }

  datatype Trace = Trace(log: Log, outcomes: seq<Outcome>, charges: seq<Charge>)

  function Run(p: Policy, reqs: seq<Charge>): (tr: Trace)
    ensures |tr.outcomes| == |tr.charges| == |reqs|
    ensures forall i :: 0 <= i < |reqs| ==>
                          tr.charges[i] == Charge(reqs[i].at, Charged(tr.outcomes[i], reqs[i].cost))
  {
    if reqs == [] then Trace(EMPTY, [], [])
    else
      var r := reqs[|reqs| - 1];
      var before := Run(p, reqs[..|reqs| - 1]);
      var (log, o) := Step(p, before.log, r.at, r.cost);
      Trace(log, before.outcomes + [o], before.charges + [Charge(r.at, Charged(o, r.cost))])
  }

  lemma {:induction false} RunPrefix(p: Policy, reqs: seq<Charge>, n: nat)
    requires n <= |reqs|
    ensures Run(p, reqs[..n]).outcomes == Run(p, reqs).outcomes[..n]
    ensures Run(p, reqs[..n]).charges == Run(p, reqs).charges[..n]
  {
    if n == |reqs| {
      assert reqs[..n] == reqs;
    } else {
      RunPrefix(p, reqs[..|reqs| - 1], n);
      assert reqs[..|reqs| - 1][..n] == reqs[..n];
    }
  }

  /** What any calls, on any keys, leave in the limiter, and their answers. */
  function ServeAll(policies: map<Key, Policy>, calls: seq<Call>): (r: (map<Key, Log>, seq<Outcome>))
    ensures |r.1| == |calls|
  {
    if calls == [] then (map[], [])
    else
      var (logs, outcomes) := ServeAll(policies, calls[..|calls| - 1]);
      var (logs', o) := Serve(policies, logs, calls[|calls| - 1]);
      (logs', outcomes + [o])
  }

  /** Keys do not interfere: what a key's calls are answered is that key's own run. */
  lemma {:induction false} MixedRun(policies: map<Key, Policy>, calls: seq<Call>, key: Key)
    requires key in policies
    ensures var tr := Run(policies[key], RequestsOf(calls, key));
            && Lookup(ServeAll(policies, calls).0, key) == tr.log
            && AnswersOf(calls, ServeAll(policies, calls).1, key) == tr.outcomes
  {
    hide Step, Run;
    if calls == [] {
      EmptyRun(policies[key]);
    } else {
      var n := |calls| - 1;
      var call, p, before := calls[n], policies[key], RequestsOf(calls[..n], key);
      MixedRun(policies, calls[..n], key);
      assert ServeAll(policies, calls).1[..n] == ServeAll(policies, calls[..n]).1;
      if OnKey(call, key) {
        RunAppend(p, before, Charge(call.at, call.cost));
        InvalidStoresNothing(p, Run(p, before).log, call.at, call.cost);
      } else {
        assert RequestsOf(calls, key) == before;
      }
    }
  }

  lemma EmptyRun(p: Policy)
    ensures Run(p, []) == Trace(EMPTY, [], [])
  {
  }

  lemma InvalidStoresNothing(p: Policy, stored: Log, now: int, cost: int)
    ensures cost <= 0 ==> Step(p, stored, now, cost) == (stored, Refused(InvalidCost))
  {
  }

  predicate Positive(xs: seq<Charge>) {
    forall i :: 0 <= i < |xs| ==> 0 < xs[i].cost
  }

  /** Pruning keeps a suffix, so it keeps order and positive costs; what it drops is old. */
  lemma {:induction false} PruneFacts(xs: seq<Charge>, cutoff: int)
    requires Ordered(xs) && Positive(xs)
    ensures var ys := Prune(xs, cutoff);
            && |ys| <= |xs| && ys == xs[|xs| - |ys|..]
            && Ordered(ys) && Positive(ys)
            && |ys| <= Total(ys) <= Total(xs)
            && (forall i :: 0 <= i < |ys| ==> cutoff < ys[i].at)
            && (forall i :: 0 <= i < |xs| - |ys| ==> xs[i].at <= cutoff)
  {
    if xs != [] && xs[0].at <= cutoff {
      PruneFacts(xs[1..], cutoff);
      var ys := Prune(xs, cutoff);
      assert forall i :: 0 < i < |xs| ==> xs[i] == xs[1..][i - 1];
    } else {
      TotalAtLeastLength(xs);
    }
  }

  lemma {:induction false} TotalAtLeastLength(xs: seq<Charge>)
    requires Positive(xs)
    ensures |xs| <= Total(xs)
  {
    if xs != [] {
      TotalAtLeastLength(xs[1..]);
    }
  }

  /** Pruning at an earlier cutoff first makes no difference. */
  lemma {:induction false} PruneTwice(xs: seq<Charge>, early: int, late: int)
    requires early <= late
    ensures Prune(Prune(xs, early), late) == Prune(xs, late)
  {
    if xs != [] && xs[0].at <= early {
      PruneTwice(xs[1..], early, late);
    }
  }

  lemma {:induction false} PruneAppend(xs: seq<Charge>, x: Charge, cutoff: int)
    requires forall i :: 0 <= i < |xs| ==> xs[i].at <= x.at
    ensures Prune(xs + [x], cutoff) == if x.at <= cutoff then [] else Prune(xs, cutoff) + [x]
  {
    if xs == [] {
      assert Prune([x][1..], cutoff) == [];
    } else {
      assert (xs + [x])[1..] == xs[1..] + [x];
      PruneAppend(xs[1..], x, cutoff);
    }
  }

  lemma {:induction false} ApprovedFacts(h: seq<Charge>, t: int)
    requires Ordered(h) && Nonnegative(h) && UpTo(h, t)
    ensures Ordered(Approved(h)) && Positive(Approved(h)) && UpTo(Approved(h), t)
  {
    if h != [] {
      ApprovedFacts(h[..|h| - 1], h[|h| - 1].at);
    }
  }

  lemma {:induction false} RetainedAppend(h: seq<Charge>, c: Charge, cutoff: int)
    requires Ordered(h) && Nonnegative(h) && UpTo(h, c.at) && 0 <= c.cost
    ensures Total(Prune(Approved(h + [c]), cutoff))
            == if c.cost == 0 then Total(Prune(Approved(h), cutoff))
               else if c.at <= cutoff then 0
               else Total(Prune(Approved(h), cutoff)) + c.cost
  {
    ApprovedAppend(h, c);
    ApprovedFacts(h, c.at);
    PruneAppend(Approved(h), c, cutoff);
    TotalAppend(Prune(Approved(h), cutoff), c);
  }

  /** The retained requests cost what the history charged in the window. */
  lemma {:induction false} RetainedCost(h: seq<Charge>, cutoff: int, now: int)
    requires Ordered(h) && Nonnegative(h) && UpTo(h, now)
    ensures Total(Prune(Approved(h), cutoff)) == CostIn(h, cutoff + 1, now)
  {
    if h != [] {
      var n := |h| - 1;
      RetainedCost(h[..n], cutoff, now);
      assert h == h[..n] + [h[n]];
      RetainedAppend(h[..n], h[n], cutoff);
      if h[n].at <= cutoff {
        NothingBefore(h, cutoff + 1, now);
      }
    }
  }

  /** The log and the full history keep the same requests at this cutoff. */
  predicate SameTail(requests: seq<Charge>, h: seq<Charge>, cutoff: int) {
    Prune(requests, cutoff) == Prune(Approved(h), cutoff)
  }

  /** What every run keeps: the log is the part of the history that can still count. */
  ghost predicate Retains(p: Policy, log: Log, h: seq<Charge>, now: int) {
    && Ordered(log.requests)
    && Positive(log.requests)
    && UpTo(log.requests, now)
    && log.used == Total(log.requests)
    && log.used <= p.limit
    && forall cutoff :: now - p.window <= cutoff ==> SameTail(log.requests, h, cutoff)
  }

  lemma {:induction false} ActiveRetains(p: Policy, log: Log, h: seq<Charge>, now: int, at: int)
    requires ValidPolicy(p) && Retains(p, log, h, now) && now <= at
    ensures Retains(p, Active(p, log, at), h, at)
    ensures Active(p, log, at).requests == Prune(Approved(h), at - p.window)
  {
    var cutoff := at - p.window;
    PruneFacts(log.requests, cutoff);
    assert SameTail(log.requests, h, cutoff);
    forall t | cutoff <= t ensures SameTail(Active(p, log, at).requests, h, t) {
      assert SameTail(log.requests, h, t);
      PruneTwice(log.requests, cutoff, t);
    }
  }

  lemma {:induction false} TailAppend(requests: seq<Charge>, h: seq<Charge>, c: Charge, cutoff: int)
    requires SameTail(requests, h, cutoff) && c.cost != 0
    requires UpTo(requests, c.at) && UpTo(Approved(h), c.at)
    ensures SameTail(requests + [c], h + [c], cutoff)
  {
    ApprovedAppend(h, c);
    PruneAppend(requests, c, cutoff);
    PruneAppend(Approved(h), c, cutoff);
  }

  lemma {:induction false} AppendRetains(p: Policy, log: Log, h: seq<Charge>, c: Charge)
    requires ValidPolicy(p) && Retains(p, log, h, c.at)
    requires Ordered(h) && Nonnegative(h) && UpTo(h, c.at)
    requires 0 < c.cost <= p.limit - log.used
    ensures Retains(p, Log(log.requests + [c], log.used + c.cost), h + [c], c.at)
  {
    TotalAppend(log.requests, c);
    ApprovedFacts(h, c.at);
    forall t | c.at - p.window <= t ensures SameTail(log.requests + [c], h + [c], t) {
      assert SameTail(log.requests, h, t);
      TailAppend(log.requests, h, c, t);
    }
  }

  lemma {:induction false} RefusalRetains(p: Policy, log: Log, h: seq<Charge>, at: int)
    requires Retains(p, log, h, at)
    ensures Retains(p, log, h + [Charge(at, 0)], at)
  {
    ApprovedAppend(h, Charge(at, 0));
    forall t | at - p.window <= t ensures SameTail(log.requests, h + [Charge(at, 0)], t) {
      assert SameTail(log.requests, h, t);
    }
  }

  /** One call keeps the correspondence between the log and the history. */
  lemma {:induction false} StepRetains(p: Policy, log: Log, h: seq<Charge>, r: Charge)
    requires ValidPolicy(p) && Retains(p, log, h, r.at)
    requires Ordered(h) && Nonnegative(h) && UpTo(h, r.at)
    ensures var (log', o) := Step(p, log, r.at, r.cost);
            Retains(p, log', h + [Charge(r.at, Charged(o, r.cost))], r.at)
  {
    var (log', o) := Step(p, log, r.at, r.cost);
    ActiveRetains(p, log, h, r.at, r.at);
    if Allowed(o) {
      AppendRetains(p, Active(p, log, r.at), h, Charge(r.at, r.cost));
    } else {
      RefusalRetains(p, log', h, r.at);
    }
  }

  lemma {:induction false} RunAppend(p: Policy, h: seq<Charge>, r: Charge)
    ensures var before, after := Run(p, h), Run(p, h + [r]);
            var (log, o) := Step(p, before.log, r.at, r.cost);
            && after.log == log
            && after.outcomes == before.outcomes + [o]
            && after.charges == before.charges + [Charge(r.at, Charged(o, r.cost))]
  {
    assert (h + [r])[..|h|] == h;
  }

  lemma {:induction false} RunRetains(p: Policy, reqs: seq<Charge>, now: int)
    requires ValidPolicy(p) && Ordered(reqs) && UpTo(reqs, now)
    ensures Retains(p, Run(p, reqs).log, Run(p, reqs).charges, now)
    ensures Ordered(Run(p, reqs).charges) && Nonnegative(Run(p, reqs).charges)
  {
    if reqs != [] {
      var n := |reqs| - 1;
      var before := Run(p, reqs[..n]);
      RunRetains(p, reqs[..n], reqs[n].at);
      RunAppend(p, reqs[..n], reqs[n]);
      assert reqs[..n] + [reqs[n]] == reqs;
      StepRetains(p, before.log, before.charges, reqs[n]);
    }
  }

  /** `used` is the retained cost, and at most `limit` requests are retained. */
  lemma {:induction false} LogIsBounded(p: Policy, reqs: seq<Charge>)
    requires ValidPolicy(p) && Ordered(reqs)
    ensures var log := Run(p, reqs).log;
            log.used == Total(log.requests) && Ordered(log.requests) && |log.requests| <= log.used <= p.limit
  {
    if reqs != [] {
      RunRetains(p, reqs, reqs[|reqs| - 1].at);
    }
    TotalAtLeastLength(Run(p, reqs).log.requests);
  }

  lemma {:induction false} OutcomeAt(p: Policy, reqs: seq<Charge>, i: nat)
    requires i < |reqs|
    ensures Run(p, reqs).outcomes[i] == Step(p, Run(p, reqs[..i]).log, reqs[i].at, reqs[i].cost).1
    ensures Run(p, reqs).charges[..i] == Run(p, reqs[..i]).charges
  {
    RunPrefix(p, reqs, i);
    RunPrefix(p, reqs, i + 1);
    assert reqs[..i + 1][..i] == reqs[..i];
    assert Run(p, reqs).outcomes[i] == Run(p, reqs[..i + 1]).outcomes[i];
  }

  lemma StepDecides(p: Policy, log: Log, now: int, cost: int)
    ensures Allowed(Step(p, log, now, cost).1) <==> 0 < cost && cost <= p.limit - Active(p, log, now).used
  {
  }

  lemma {:induction false} ActiveUsed(p: Policy, log: Log, h: seq<Charge>, now: int)
    requires log.used == Total(log.requests) && SameTail(log.requests, h, now - p.window)
    ensures Active(p, log, now).used == Total(Prune(Approved(h), now - p.window))
  {
  }

  lemma {:induction false} ChargesNonnegative(p: Policy, reqs: seq<Charge>)
    ensures Nonnegative(Run(p, reqs).charges)
  {
    if reqs != [] {
      ChargesNonnegative(p, reqs[..|reqs| - 1]);
    }
  }

  lemma {:induction false} RunWindowCost(p: Policy, reqs: seq<Charge>, now: int)
    requires ValidPolicy(p) && Ordered(reqs) && UpTo(reqs, now)
    ensures Total(Prune(Approved(Run(p, reqs).charges), now - p.window))
            == CostIn(Run(p, reqs).charges, now - p.window + 1, now)
  {
    ChargesNonnegative(p, reqs);
    RetainedCost(Run(p, reqs).charges, now - p.window, now);
  }

  lemma {:induction false} RunUsed(p: Policy, reqs: seq<Charge>, now: int)
    requires ValidPolicy(p) && Ordered(reqs) && UpTo(reqs, now)
    ensures Active(p, Run(p, reqs).log, now).used == Total(Prune(Approved(Run(p, reqs).charges), now - p.window))
  {
    RunRetains(p, reqs, now);
    assert SameTail(Run(p, reqs).log.requests, Run(p, reqs).charges, now - p.window);
    ActiveUsed(p, Run(p, reqs).log, Run(p, reqs).charges, now);
  }

  /** The cost the pruned log counts is the cost the full history charged in the window. */
  lemma {:induction false} ActiveCost(p: Policy, reqs: seq<Charge>, now: int)
    requires ValidPolicy(p) && Ordered(reqs) && UpTo(reqs, now)
    ensures Active(p, Run(p, reqs).log, now).used == CostIn(Run(p, reqs).charges, now - p.window + 1, now)
  {
    RunUsed(p, reqs, now);
    RunWindowCost(p, reqs, now);
  }

  /**
   The pruned log refines the full history: a request is allowed exactly when everything
   ever charged in the window that ends now, plus its cost, is within the limit.
   */
  lemma {:induction false} AdmissionLaw(p: Policy, reqs: seq<Charge>, i: nat)
    requires ValidPolicy(p) && Ordered(reqs) && i < |reqs|
    ensures var tr := Run(p, reqs);
            Allowed(tr.outcomes[i]) <==>
            && 0 < reqs[i].cost
            && CostIn(tr.charges[..i], reqs[i].at - p.window + 1, reqs[i].at) + reqs[i].cost <= p.limit
  {
    OutcomeAt(p, reqs, i);
    ActiveCost(p, reqs[..i], reqs[i].at);
    StepDecides(p, Run(p, reqs[..i]).log, reqs[i].at, reqs[i].cost);
  }

  lemma {:induction false} TailOrdered(xs: seq<Charge>)
    requires Ordered(xs) && Positive(xs) && xs != []
    ensures Ordered(xs[1..]) && Positive(xs[1..]) && 0 < xs[0].cost
    ensures |xs| > 1 ==> xs[0].at <= xs[1].at
  {
  }

  lemma {:induction false} PruneSound(xs: seq<Charge>, cutoff: int)
    requires Ordered(xs) && Positive(xs)
    ensures Ordered(Prune(xs, cutoff)) && Positive(Prune(xs, cutoff)) && Total(Prune(xs, cutoff)) <= Total(xs)
  {
    hide Ordered, Positive;
    if xs != [] && xs[0].at <= cutoff {
      TailOrdered(xs);
      PruneSound(xs[1..], cutoff);
    }
  }

  /** Where the release search stops is the least time at which enough has expired. */
  lemma {:induction false} FirstReleaseExact(xs: seq<Charge>, required: int, window: int, now: int, t: int)
    requires Ordered(xs) && Positive(xs)
    requires 0 < required <= Total(xs)
    ensures t >= FirstRelease(xs, required, window, now) <==> Total(xs) - Total(Prune(xs, t - window)) >= required
  {
    hide Ordered, Positive;
    TailOrdered(xs);
    if xs[0].cost >= required {
      PruneSound(xs[1..], t - window);
    } else {
      FirstReleaseExact(xs[1..], required - xs[0].cost, window, now, t);
    }
  }

  lemma {:induction false} FirstReleaseNone(xs: seq<Charge>, required: int, window: int, now: int)
    requires Positive(xs) && Total(xs) < required
    ensures FirstRelease(xs, required, window, now) == now + window
  {
    if xs != [] {
      TotalAtLeastLength(xs[1..]);
      FirstReleaseNone(xs[1..], required - xs[0].cost, window, now);
    }
  }

  /** What the whole history, with nothing after `now`, says of a request made at `t`. */
  predicate FitsAt(p: Policy, h: seq<Charge>, now: int, cost: int, t: int) {
    CostIn(h, t - p.window + 1, now) + cost <= p.limit
  }

  lemma {:induction false} TailCost(p: Policy, log: Log, h: seq<Charge>, now: int, t: int)
    requires Retains(p, log, h, now) && Ordered(h) && Nonnegative(h) && UpTo(h, now) && now <= t
    ensures Total(Prune(log.requests, t - p.window)) == CostIn(h, t - p.window + 1, now)
  {
    hide Total, Prune, CostIn, Ordered, Nonnegative, UpTo, Positive, Approved;
    assert SameTail(log.requests, h, t - p.window);
    RetainedCost(h, t - p.window, now);
  }

  lemma {:induction false} AllowedIffFits(p: Policy, log: Log, h: seq<Charge>, now: int, cost: int, t: int)
    requires Retains(p, log, h, now) && Ordered(h) && Nonnegative(h) && UpTo(h, now) && now <= t && 0 < cost
    ensures Allowed(Step(p, log, t, cost).1) <==> FitsAt(p, h, now, cost, t)
  {
    hide Step, Prune, CostIn, Total, Ordered, Positive, SameTail;
    TailCost(p, log, h, now, t);
    StepDecides(p, log, t, cost);
  }

  /** What a denial leaves and reports. */
  lemma DenialIs(p: Policy, stored: Log, now: int, cost: int)
    requires Denied(Step(p, stored, now, cost).1)
    ensures var (log, o) := Step(p, stored, now, cost);
            && 0 < cost && log == Active(p, stored, now)
            && o.decision.resetAt == FirstRelease(log.requests, cost - (p.limit - log.used), p.window, now)
            && o.decision.retryAfterMS == TruncatedRetryMS(o.decision.resetAt - now)
  {
  }

  /**
   After a denial, absent other approvals, the same request succeeds from `resetAt` on and
   not before, provided its cost is within the limit; a larger cost is answered with a reset
   too, and never succeeds. Either way the log answers as the full history would.
   */
  lemma {:induction false} ResetHintExact(p: Policy, reqs: seq<Charge>, r: Charge, t: int)
    requires ValidPolicy(p) && Ordered(reqs) && UpTo(reqs, r.at) && r.at <= t
    requires Denied(Step(p, Run(p, reqs).log, r.at, r.cost).1)
    ensures var (log, o) := Step(p, Run(p, reqs).log, r.at, r.cost);
            && (Allowed(Step(p, log, t, r.cost).1) <==> r.cost <= p.limit && t >= o.decision.resetAt)
            && (Allowed(Step(p, log, t, r.cost).1) <==> FitsAt(p, Run(p, reqs).charges, r.at, r.cost, t))
  {
    hide Run, Step, Active, FirstRelease, TruncatedRetryMS, Prune, Ordered, Positive;
    var stored, h := Run(p, reqs).log, Run(p, reqs).charges;
    var log := Step(p, stored, r.at, r.cost).0;
    RunRetains(p, reqs, r.at);
    DenialIs(p, stored, r.at, r.cost);
    ActiveRetains(p, stored, h, r.at, r.at);
    AllowedIffFits(p, log, h, r.at, r.cost, t);
    DeniedAgain(p, reqs, r);
    StepDecides(p, log, r.at, r.cost);
    AllowedIffFits(p, log, h, r.at, r.cost, r.at);
    CostInNonnegative(h, t - p.window + 1, r.at);
    if r.cost <= p.limit {
      TailCost(p, log, h, r.at, r.at);
      TailCost(p, log, h, r.at, t);
      NoneToPrune(p, stored, h, r.at);
      FirstReleaseExact(log.requests, r.cost - (p.limit - log.used), p.window, r.at, t);
    }
  }

  lemma {:induction false} NoneToPrune(p: Policy, stored: Log, h: seq<Charge>, now: int)
    requires ValidPolicy(p) && Retains(p, stored, h, now)
    ensures Prune(Active(p, stored, now).requests, now - p.window) == Active(p, stored, now).requests
  {
    PruneTwice(stored.requests, now - p.window, now - p.window);
  }

  /** `remaining` is exactly the largest cost a further request at the same instant may have. */
  lemma {:induction false} RemainingExact(p: Policy, reqs: seq<Charge>, r: Charge, next: int)
    requires ValidPolicy(p) && Ordered(reqs) && UpTo(reqs, r.at) && 0 < next
    requires Step(p, Run(p, reqs).log, r.at, r.cost).1.Decided?
    ensures var (log, o) := Step(p, Run(p, reqs).log, r.at, r.cost);
            Allowed(Step(p, log, r.at, next).1) <==> next <= o.decision.remaining
  {
    var stored, h := Run(p, reqs).log, Run(p, reqs).charges;
    RunRetains(p, reqs, r.at);
    StepRetains(p, stored, h, r);
    StepIsActive(p, stored, h, r);
    StepDecides(p, Step(p, stored, r.at, r.cost).0, r.at, next);
  }

  /** The log a decision leaves has nothing to prune at that instant. */
  lemma {:induction false} StepIsActive(p: Policy, stored: Log, h: seq<Charge>, r: Charge)
    requires ValidPolicy(p) && Retains(p, stored, h, r.at) && 0 < r.cost
    ensures var (log, o) := Step(p, stored, r.at, r.cost);
            Active(p, log, r.at) == log && o.Decided? && o.decision.remaining == p.limit - log.used
  {
    hide FirstRelease, TruncatedRetryMS;
    var cutoff := r.at - p.window;
    PruneTwice(stored.requests, cutoff, cutoff);
    PruneFacts(stored.requests, cutoff);
    PruneAppend(Prune(stored.requests, cutoff), Charge(r.at, r.cost), cutoff);
  }

  lemma {:induction false} DeniedAgain(p: Policy, reqs: seq<Charge>, r: Charge)
    requires ValidPolicy(p) && Ordered(reqs) && UpTo(reqs, r.at) && 0 < r.cost
    requires Denied(Step(p, Run(p, reqs).log, r.at, r.cost).1)
    ensures !Allowed(Step(p, Step(p, Run(p, reqs).log, r.at, r.cost).0, r.at, r.cost).1)
  {
    hide Run, FirstRelease, TruncatedRetryMS;
    RunRetains(p, reqs, r.at);
    StepIsActive(p, Run(p, reqs).log, Run(p, reqs).charges, r);
  }

  /**
   The time of the newest charge from which on the history charged more than `budget`:
   until that charge expires, no more than `budget` can be free.
   */
  function Blocker(h: seq<Charge>, budget: int): Option<int> {
    if h == [] then None
    else
      var c := h[|h| - 1];
      if c.cost > budget then Some(c.at) else Blocker(h[..|h| - 1], budget - c.cost)
  }

  lemma {:induction false} BlockerExact(h: seq<Charge>, budget: int, now: int, x: int)
    requires Ordered(h) && Nonnegative(h) && UpTo(h, now) && 0 <= budget
    ensures CostIn(h, x, now) > budget <==> Blocker(h, budget).Some? && x <= Blocker(h, budget).value
  {
    if h != [] {
      var n := |h| - 1;
      var c := h[n];
      CostInNonnegative(h[..n], x, now);
      if c.cost <= budget {
        BlockerExact(h[..n], budget - c.cost, now, x);
      }
      if c.at < x {
        NothingBefore(h, x, now);
        NothingBefore(h[..n], x, now);
      }
    }
  }

  /** The reported reset, told from the history: when the blocking charge expires. */
  function ResetOf(p: Policy, h: seq<Charge>, now: int, cost: int): int {
    var blocker := Blocker(h, p.limit - cost);
    (if cost <= p.limit && blocker.Some? then blocker.value else now) + p.window
  }

  /**
   The search over the pruned log finds, on the full history, the newest charge from which on
   there is no room for the request; a cost above the limit finds none and waits a window.
   */
  lemma {:induction false} DenialReset(p: Policy, reqs: seq<Charge>, r: Charge)
    requires ValidPolicy(p) && Ordered(reqs) && UpTo(reqs, r.at)
    requires Denied(Step(p, Run(p, reqs).log, r.at, r.cost).1)
    ensures var o, h := Step(p, Run(p, reqs).log, r.at, r.cost).1, Run(p, reqs).charges;
            && o.decision.resetAt == ResetOf(p, h, r.at, r.cost)
            && r.at < o.decision.resetAt
            && (r.cost <= p.limit ==> Blocker(h, p.limit - r.cost).Some?)
  {
    hide Run, Step, Active, FirstRelease, TruncatedRetryMS, Blocker, Ordered, Positive, Nonnegative, UpTo, CostIn;
    var stored, h := Run(p, reqs).log, Run(p, reqs).charges;
    DenialIs(p, stored, r.at, r.cost);
    RunRetains(p, reqs, r.at);
    ChargesUpTo(p, reqs, r.at);
    if r.cost <= p.limit {
      var budget := p.limit - r.cost;
      DeniedAgain(p, reqs, r);
      ResetHintExact(p, reqs, r, r.at);
      BlockerExact(h, budget, r.at, r.at - p.window + 1);
      var blocked := Blocker(h, budget).value;
      BlockerExact(h, budget, r.at, blocked);
      BlockerExact(h, budget, r.at, blocked + 1);
      ResetHintExact(p, reqs, r, blocked + p.window);
      ResetHintExact(p, reqs, r, blocked + p.window - 1);
    } else {
      ActiveRetains(p, stored, h, r.at, r.at);
      var log := Active(p, stored, r.at);
      FirstReleaseNone(log.requests, r.cost - (p.limit - log.used), p.window, r.at);
    }
  }

  lemma {:induction false} ChargesUpTo(p: Policy, reqs: seq<Charge>, now: int)
    requires UpTo(reqs, now)
    ensures UpTo(Run(p, reqs).charges, now)
  {
  }

  /**
   The millisecond hint is truncated, and is given for costs no window can hold: waiting
   exactly that long is enough if and only if the cost is within the limit and the time
   until the blocking charge expires is whole milliseconds or no longer than one.
   */
  lemma {:induction false} RetryHintSuffices(p: Policy, reqs: seq<Charge>, r: Charge)
    requires ValidPolicy(p) && Ordered(reqs) && UpTo(reqs, r.at)
    requires Denied(Step(p, Run(p, reqs).log, r.at, r.cost).1)
    ensures var (log, o) := Step(p, Run(p, reqs).log, r.at, r.cost);
            var wait := ResetOf(p, Run(p, reqs).charges, r.at, r.cost) - r.at;
            Allowed(Step(p, log, r.at + o.decision.retryAfterMS * MS, r.cost).1) <==>
            r.cost <= p.limit && (wait % MS == 0 || wait <= MS)
  {
    hide Run, Step, TruncatedRetryMS, FirstRelease, Active, ResetOf;
    var wait := ResetOf(p, Run(p, reqs).charges, r.at, r.cost) - r.at;
    DenialReset(p, reqs, r);
    DenialIs(p, Run(p, reqs).log, r.at, r.cost);
    TruncatedRetryCovers(wait);
    TruncatedRetryPositive(wait);
    ResetHintExact(p, reqs, r, r.at + TruncatedRetryMS(wait) * MS);
  }

  /** How long the hint is: the wait the history tells, cut to whole milliseconds but at least one. */
  lemma {:induction false} RetryHintSize(p: Policy, reqs: seq<Charge>, r: Charge)
    requires ValidPolicy(p) && Ordered(reqs) && UpTo(reqs, r.at)
    requires Denied(Step(p, Run(p, reqs).log, r.at, r.cost).1)
    ensures var hint := Step(p, Run(p, reqs).log, r.at, r.cost).1.decision.retryAfterMS;
            var wait := ResetOf(p, Run(p, reqs).charges, r.at, r.cost) - r.at;
            0 < wait && hint >= 1 && wait < (hint + 1) * MS && (hint == 1 || hint * MS <= wait)
  {
    hide Run, Step, TruncatedRetryMS, FirstRelease, Active, ResetOf;
    DenialReset(p, reqs, r);
    DenialIs(p, Run(p, reqs).log, r.at, r.cost);
    TruncatedRetryBounds(ResetOf(p, Run(p, reqs).charges, r.at, r.cost) - r.at);
  }

  /**
   Which answers there are: a cost that is not positive is an error, any other is decided,
   and reports the limit and no wait when allowed.
   */
  lemma AnswerForm(p: Policy, stored: Log, now: int, cost: int)
    ensures var o := Step(p, stored, now, cost).1;
            && (cost <= 0 ==> o == Refused(InvalidCost))
            && (0 < cost ==> o.Decided? && o.decision.limit == p.limit && (Allowed(o) ==> o.decision.retryAfterMS == 0))
  {
  }

  /** The log after one request of cost one at time zero. */
  lemma {:induction false} FirstEntry(p: Policy)
    requires ValidPolicy(p)
    ensures Run(p, [Charge(0, 1)]).log == Log([Charge(0, 1)], 1)
    ensures Run(p, [Charge(0, 1)]).charges == [Charge(0, 1)]
  {
    var c := Charge(0, 1);
    assert [] + [c] == [c];
    assert Active(p, EMPTY, 0) == EMPTY;
    assert Run(p, []) == Trace(EMPTY, [], []);
    RunAppend(p, [], c);
  }

  lemma {:induction false} OneEntryActive(p: Policy, now: int)
    requires now < p.window
    ensures Active(p, Log([Charge(0, 1)], 1), now) == Log([Charge(0, 1)], 1)
  {
  }

  /** A wait of one and a half milliseconds, hinted as one: the retry is denied again. */
  lemma {:induction false} RetryHintFallsShort()
    ensures var p := Policy(1, 1_500_000);
            var (log, o) := Step(p, Run(p, [Charge(0, 1)]).log, 0, 1);
            Denied(o) && !Allowed(Step(p, log, o.decision.retryAfterMS * MS, 1).1)
  {
    hide Run, Step, ResetOf;
    var p, h := Policy(1, 1_500_000), [Charge(0, 1)];
    FirstEntry(p);
    FullLogDenies(p);
    RetryHintSuffices(p, h, Charge(0, 1));
  }

  lemma {:induction false} FullLogDenies(p: Policy)
    requires ValidPolicy(p) && p.limit == 1
    ensures Denied(Step(p, Log([Charge(0, 1)], 1), 0, 1).1)
    ensures ResetOf(p, [Charge(0, 1)], 0, 1) == p.window
  {
    hide FirstRelease, TruncatedRetryMS;
    OneEntryActive(p, 0);
  }

  lemma {:induction false} PruneKeepsPositive(xs: seq<Charge>, cutoff: int)
    requires Positive(xs)
    ensures Positive(Prune(xs, cutoff))
  {
    if xs != [] && xs[0].at <= cutoff {
      PruneKeepsPositive(xs[1..], cutoff);
    }
  }

  predicate Sound(log: Log) {
    Positive(log.requests) && log.used == Total(log.requests)
  }

  lemma {:induction false} StepKeepsSound(p: Policy, log: Log, now: int, cost: int)
    requires Sound(log)
    ensures Sound(Step(p, log, now, cost).0) && 0 <= Active(p, log, now).used
  {
    hide FirstRelease, TruncatedRetryMS;
    PruneKeepsPositive(log.requests, now - p.window);
    TotalAtLeastLength(Prune(log.requests, now - p.window));
    TotalAppend(Prune(log.requests, now - p.window), Charge(now, cost));
  }

  lemma {:induction false} RunSound(p: Policy, reqs: seq<Charge>)
    ensures Sound(Run(p, reqs).log)
  {
    if reqs != [] {
      var n := |reqs| - 1;
      RunSound(p, reqs[..n]);
      StepKeepsSound(p, Run(p, reqs[..n]).log, reqs[n].at, reqs[n].cost);
    }
  }

  /** A cost above the limit is denied with a positive hint, now and at any other time. */
  lemma {:induction false} OversizedNeverFits(p: Policy, reqs: seq<Charge>, now: int, cost: int, t: int)
    requires ValidPolicy(p) && p.limit < cost
    ensures var (log, o) := Step(p, Run(p, reqs).log, now, cost);
            Denied(o) && o.decision.retryAfterMS >= 1 && Denied(Step(p, log, t, cost).1)
  {
    hide Run, Active, FirstRelease, TruncatedRetryMS;
    var (log, o) := Step(p, Run(p, reqs).log, now, cost);
    RunSound(p, reqs);
    StepKeepsSound(p, Run(p, reqs).log, now, cost);
    StepKeepsSound(p, log, t, cost);
    TruncatedRetryPositive(o.decision.resetAt - now);
  }

  /** Two asked of a limit of one: a hint of two whole milliseconds, and no success then. */
  lemma {:induction false} OversizedHintFails()
    ensures var p := Policy(1, 2 * MS);
            var (log, o) := Step(p, EMPTY, 0, 2);
            Denied(o) && o.decision.retryAfterMS == 2 && !Allowed(Step(p, log, 2 * MS, 2).1)
  {
    var p := Policy(1, 2 * MS);
    assert Run(p, []).log == EMPTY;
    OversizedNeverFits(p, [], 0, 2, 2 * MS);
  }

  // ---- When the reported reset is the time of full capacity ----

  /** The whole limit would be granted at `t`. */
  predicate FullAt(p: Policy, log: Log, t: int) {
    Allowed(Step(p, log, t, p.limit).1)
  }

  /** From `now` on, capacity is full exactly from `reset` on. */
  ghost predicate FullFrom(p: Policy, log: Log, now: int, reset: int) {
    forall t :: now <= t ==> (FullAt(p, log, t) <==> t >= reset)
  }

  /** Capacity is full once the newest charge has expired. */
  lemma {:induction false} FullOnceExpired(p: Policy, log: Log, h: seq<Charge>, now: int, t: int)
    requires ValidPolicy(p) && Retains(p, log, h, now) && Ordered(h) && Nonnegative(h) && UpTo(h, now) && now <= t
    ensures FullAt(p, log, t) <==> Blocker(h, 0).None? || t >= Blocker(h, 0).value + p.window
  {
    hide Step, Blocker, CostIn, Ordered, Nonnegative, UpTo, Positive;
    AllowedIffFits(p, log, h, now, p.limit, t);
    BlockerExact(h, 0, now, t - p.window + 1);
    CostInNonnegative(h, t - p.window + 1, now);
  }

  /** Two candidate resets, both after `now`, cannot both be exact. */
  lemma {:induction false} FullFromUnique(p: Policy, log: Log, now: int, exact: int, reset: int)
    requires now <= reset && now <= exact && FullFrom(p, log, now, exact)
    ensures FullFrom(p, log, now, reset) <==> reset == exact
  {
    hide FullAt;
    if FullFrom(p, log, now, reset) {
      assert FullAt(p, log, reset) && FullAt(p, log, exact);
    }
  }

  /** After an approval, full capacity is exactly one window away. */
  lemma {:induction false} ApprovalFullFrom(p: Policy, reqs: seq<Charge>, r: Charge)
    requires ValidPolicy(p) && Ordered(reqs) && UpTo(reqs, r.at)
    requires Allowed(Step(p, Run(p, reqs).log, r.at, r.cost).1)
    ensures FullFrom(p, Step(p, Run(p, reqs).log, r.at, r.cost).0, r.at, r.at + p.window)
  {
    hide Run, Step, Ordered, Retains;
    var stored, h := Run(p, reqs).log, Run(p, reqs).charges;
    var log := Step(p, stored, r.at, r.cost).0;
    RunRetains(p, reqs, r.at);
    ChargesUpTo(p, reqs, r.at);
    StepRetains(p, stored, h, r);
    StepDecides(p, stored, r.at, r.cost);
    var g := h + [Charge(r.at, r.cost)];
    assert Ordered(g) by {
      OrderedAppend(h, Charge(r.at, r.cost));
    }
    forall t | r.at <= t ensures FullAt(p, log, t) <==> t >= r.at + p.window {
      FullOnceExpired(p, log, g, r.at, t);
    }
  }

  lemma {:induction false} OrderedAppend(h: seq<Charge>, c: Charge)
    requires Ordered(h) && UpTo(h, c.at)
    ensures Ordered(h + [c])
  {
  }

  /** Charges strictly before `now` are what makes the oldest retained request older than `now`. */
  lemma {:induction false} OldestIsNow(p: Policy, h: seq<Charge>, now: int)
    requires ValidPolicy(p) && Ordered(h) && Nonnegative(h) && UpTo(h, now)
    ensures var kept := Prune(Approved(h), now - p.window);
            CostIn(h, now - p.window + 1, now - 1) == 0 <==> kept == [] || kept[0].at >= now
  {
    hide Ordered, Nonnegative, Positive, UpTo, CostIn, Prune, Total, Approved;
    var kept := Prune(Approved(h), now - p.window);
    CostInSplits(h, now - p.window + 1, now, now);
    RetainedCost(h, now - p.window, now);
    RetainedCost(h, now - 1, now);
    PruneTwice(Approved(h), now - p.window, now - 1);
    ApprovedFacts(h, now);
    PruneSound(Approved(h), now - p.window);
    PruneDropsCost(kept, now - 1);
  }

  /** Pruning positive costs keeps the total exactly when it drops nothing. */
  lemma {:induction false} PruneDropsCost(xs: seq<Charge>, cutoff: int)
    requires Ordered(xs) && Positive(xs)
    ensures Total(Prune(xs, cutoff)) == Total(xs) <==> xs == [] || cutoff < xs[0].at
  {
    hide Ordered, Positive;
    if xs != [] && xs[0].at <= cutoff {
      TailOrdered(xs);
      PruneSound(xs[1..], cutoff);
    }
  }

  lemma {:induction false} ApprovalReset(p: Policy, stored: Log, now: int, cost: int)
    requires Allowed(Step(p, stored, now, cost).1)
    ensures var (log, o), kept := Step(p, stored, now, cost), Active(p, stored, now).requests;
            && log.requests == kept + [Charge(now, cost)]
            && o.decision.resetAt == (if kept == [] then now else kept[0].at) + p.window
  {
  }

  /**
   After an approval, `resetAt` is the least time of full capacity if and only if nothing was
   charged in the window before this instant.
   */
  lemma {:induction false} ApprovalResetIsFull(p: Policy, reqs: seq<Charge>, r: Charge)
    requires ValidPolicy(p) && Ordered(reqs) && UpTo(reqs, r.at)
    requires Allowed(Step(p, Run(p, reqs).log, r.at, r.cost).1)
    ensures var (log, o) := Step(p, Run(p, reqs).log, r.at, r.cost);
            FullFrom(p, log, r.at, o.decision.resetAt) <==>
            CostIn(Run(p, reqs).charges, r.at - p.window + 1, r.at - 1) == 0
  {
    hide Run, Step, Active, FullFrom, CostIn, Prune, Approved;
    var stored, h := Run(p, reqs).log, Run(p, reqs).charges;
    var (log, o) := Step(p, stored, r.at, r.cost);
    RunRetains(p, reqs, r.at);
    ChargesUpTo(p, reqs, r.at);
    ApprovalFullFrom(p, reqs, r);
    ActiveRetains(p, stored, h, r.at, r.at);
    ApprovedFacts(h, r.at);
    PruneFacts(Approved(h), r.at - p.window);
    ApprovalReset(p, stored, r.at, r.cost);
    OldestIsNow(p, h, r.at);
    FullFromUnique(p, log, r.at, r.at + p.window, o.decision.resetAt);
  }

  /**
   After a denial, `resetAt` is the least time of full capacity if and only if the cost, with
   what was charged at the instant of the newest charge, exceeds the limit; for a cost above
   the limit, if and only if something was charged at this very instant.
   */
  lemma {:induction false} DenialResetIsFull(p: Policy, reqs: seq<Charge>, r: Charge)
    requires ValidPolicy(p) && Ordered(reqs) && UpTo(reqs, r.at)
    requires Denied(Step(p, Run(p, reqs).log, r.at, r.cost).1)
    ensures var (log, o) := Step(p, Run(p, reqs).log, r.at, r.cost);
            var h := Run(p, reqs).charges;
            var newest := Blocker(h, 0);
            FullFrom(p, log, r.at, o.decision.resetAt) <==>
            if r.cost <= p.limit then newest.Some? && CostIn(h, newest.value, r.at) + r.cost > p.limit
            else CostIn(h, r.at, r.at) > 0
  {
    hide Run, Step, Active, CostIn, Prune, Approved, Blocker, FullAt, Ordered, Nonnegative, UpTo, Positive;
    var stored, h := Run(p, reqs).log, Run(p, reqs).charges;
    var (log, o) := Step(p, stored, r.at, r.cost);
    var newest := Blocker(h, 0);
    RunRetains(p, reqs, r.at);
    ChargesUpTo(p, reqs, r.at);
    DenialIs(p, stored, r.at, r.cost);
    ActiveRetains(p, stored, h, r.at, r.at);
    DenialReset(p, reqs, r);
    forall t | r.at <= t ensures FullAt(p, log, t) <==> newest.None? || t >= newest.value + p.window {
      FullOnceExpired(p, log, h, r.at, t);
    }
    BlockerExact(h, 0, r.at, r.at);
    BlockerExact(h, 0, r.at, r.at + 1);
    assert CostIn(h, r.at + 1, r.at) <= 0 by {
      NothingAfter(h, r.at);
    }
    if newest.None? {
      assert FullAt(p, log, r.at);
      NewestExists(p, h, r);
    } else {
      var full := if newest.value + p.window >= r.at then newest.value + p.window else r.at;
      FullFromUnique(p, log, r.at, full, o.decision.resetAt);
      NewestExists(p, h, r);
      BlockerExact(h, 0, r.at, newest.value);
    }
  }

  lemma {:induction false} NothingAfter(h: seq<Charge>, now: int)
    requires UpTo(h, now)
    ensures CostIn(h, now + 1, now) == 0
  {
    if h != [] {
      NothingAfter(h[..|h| - 1], now);
    }
  }

  /** A charge that blocks a cost within the limit is no newer than the newest charge. */
  lemma {:induction false} NewestExists(p: Policy, h: seq<Charge>, r: Charge)
    requires Ordered(h) && Nonnegative(h) && UpTo(h, r.at)
    ensures var blocker, newest := Blocker(h, p.limit - r.cost), Blocker(h, 0);
            r.cost <= p.limit && blocker.Some? ==>
              && newest.Some? && blocker.value <= newest.value
              && (newest.value <= blocker.value <==> CostIn(h, newest.value, r.at) + r.cost > p.limit)
  {
    hide Blocker, CostIn, Ordered, Nonnegative, UpTo;
    var blocker, newest := Blocker(h, p.limit - r.cost), Blocker(h, 0);
    if r.cost <= p.limit && blocker.Some? {
      BlockerExact(h, p.limit - r.cost, r.at, blocker.value);
      BlockerExact(h, 0, r.at, blocker.value);
      BlockerExact(h, p.limit - r.cost, r.at, newest.value);
    }
  }

  /** Two approvals an instant apart: the second reports a reset one instant too early. */
  lemma {:induction false} ResetBeforeFull(window: int)
    requires window > 1
    ensures var p := Policy(2, window);
            var (log, o) := Step(p, Run(p, [Charge(0, 1)]).log, 1, 1);
            Allowed(o) && o.decision.resetAt == window && FullFrom(p, log, 1, window + 1)
  {
    var p := Policy(2, window);
    FirstEntry(p);
    OneEntryActive(p, 1);
    hide Run;
    ApprovalFullFrom(p, [Charge(0, 1)], Charge(1, 1));
  }

  /** After an approval, `resetAt` is the least time at which anything in the log expires. */
  lemma {:induction false} ApprovalResetExact(p: Policy, stored: Log, now: int, cost: int, t: int)
    requires Allowed(Step(p, stored, now, cost).1)
    ensures var (log, o) := Step(p, stored, now, cost);
            Prune(log.requests, t - p.window) != log.requests <==> t >= o.decision.resetAt
  {
    hide FirstRelease, TruncatedRetryMS;
    var log := Step(p, stored, now, cost).0;
    PruneShortens(log.requests, t - p.window);
  }

  lemma {:induction false} PruneShortens(xs: seq<Charge>, cutoff: int)
    ensures |Prune(xs, cutoff)| <= |xs|
    ensures xs != [] && xs[0].at <= cutoff ==> |Prune(xs, cutoff)| < |xs|
  {
    if xs != [] && xs[0].at <= cutoff {
      PruneShortens(xs[1..], cutoff);
    }
  }
}
