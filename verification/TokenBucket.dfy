/**
 The in-memory token bucket (internal/ratelimiter/token-bucket.go).

 Times and windows are nanoseconds. A bucket's `level` is its token count times the
 policy's window.
 */
module TokenBucket {
  import opened Arithmetic
  import opened Limits
  import opened History

  datatype Bucket = Bucket(level: int, lastRefill: int)

  /** The stored bucket brought up to `now`; a key never seen has a full one. */
  function Refilled(p: Policy, stored: Option<Bucket>, now: int): Bucket {
    match stored
    case None => Bucket(Cap(p), now)
    case Some(b) =>
      if now - b.lastRefill <= 0 then b
      else Bucket(Min(Cap(p), b.level + p.limit * (now - b.lastRefill)), now)
  }

  /** Nanoseconds until the refill rate yields this many scaled tokens. */
  function DurationFor(p: Policy, scaledTokens: int): int
    requires ValidPolicy(p)
  {
    CeilDiv(scaledTokens, p.limit)
  }

  function Report(p: Policy, level: int, now: int, allowed: bool, retryAfterMS: int): Decision
    requires ValidPolicy(p)
  {
    Decision(allowed, p.limit, level / p.window, now + DurationFor(p, Cap(p) - level), retryAfterMS)
  }

  /** One `Allow` call on one key: the stored bucket afterwards, and the answer. */
  function Step(p: Policy, stored: Option<Bucket>, now: int, cost: int): (Option<Bucket>, Outcome)
    requires ValidPolicy(p)
  {
    if cost <= 0 then (stored, Refused(InvalidCost))
    else if cost > p.limit then (stored, Refused(CostExceedsLimit))
    else
      var b := Refilled(p, stored, now);
      if cost * p.window > b.level then
        var retryAfter := DurationFor(p, cost * p.window - b.level);
        (Some(b), Decided(Report(p, b.level, now, false, Max(1, CeilDiv(retryAfter, MS)))))
      else
        var level := b.level - cost * p.window;
        (Some(b.(level := level)), Decided(Report(p, level, now, true, 0)))
  }

  function Lookup(buckets: map<Key, Bucket>, key: Key): Option<Bucket> {
    if key in buckets then Some(buckets[key]) else None
  }

  /** One `Allow` call on whichever key: every stored bucket afterwards, and the answer. */
  function Serve(policies: map<Key, Policy>, buckets: map<Key, Bucket>, call: Call): (map<Key, Bucket>, Outcome)
    requires ValidPolicies(policies)
  {
    if call.cancelled then (buckets, Refused(Cancelled))
    else if call.cost <= 0 then (buckets, Refused(InvalidCost))
    else if call.key !in policies then (buckets, Refused(NoPolicy))
    else
      var (b, o) := Step(policies[call.key], Lookup(buckets, call.key), call.at, call.cost);
      (if o.Decided? then buckets[call.key := b.value] else buckets, o)
  }

  class TokenBucketRateLimiter {
    const policies: map<Key, Policy>
    var buckets: map<Key, Bucket>

    ghost predicate Valid()
      reads this
    {
      && ValidPolicies(policies)
      && forall k <- buckets :: k in policies && InRange(policies[k], Some(buckets[k]))
    }

    function Stored(key: Key): Option<Bucket>
      reads this
    {
      Lookup(buckets, key)
    }

    constructor (policies: map<Key, Policy>)
      requires ValidPolicies(policies)
      ensures Valid() && this.policies == policies && buckets == map[]
    {
      this.policies := policies;
      buckets := map[];
    }

    /** A limiter, unless a policy is invalid. */
    static method New(policies: map<Key, Policy>) returns (r: Option<TokenBucketRateLimiter>)
      ensures r.Some? <==> (forall k <- policies ::
                             k.clientID != [] && k.resource != [] && policies[k].limit > 0 && policies[k].window > 0)
      ensures r.Some? ==> fresh(r.value) && r.value.Valid() && r.value.policies == policies && r.value.buckets == map[]
    {
      if !ValidPolicies(policies) {
        return None;
      }
      var limiter := new TokenBucketRateLimiter(policies);
      return Some(limiter);
    }

    method Allow(cancelled: bool, now: int, key: Key, cost: int) returns (outcome: Outcome)
      requires Valid()
      modifies this
      ensures Valid()
      ensures (buckets, outcome) == Serve(policies, old(buckets), Call(cancelled, now, key, cost))
      ensures cancelled ==> outcome == Refused(Cancelled)
      ensures !cancelled && key !in policies ==>
                outcome == Refused(if cost <= 0 then InvalidCost else NoPolicy)
      ensures cancelled || key !in policies ==> buckets == old(buckets)
      ensures !cancelled && key in policies ==>
                (Stored(key), outcome) == Step(policies[key], old(Stored(key)), now, cost)
      ensures forall k :: k != key ==> Stored(k) == old(Stored(k))
    {
      if cancelled {
        return Refused(Cancelled);
      }
      if cost <= 0 {
        return Refused(InvalidCost);
      }
      if key !in policies {
        return Refused(NoPolicy);
      }
      var policy := policies[key];
      if cost > policy.limit {
        return Refused(CostExceedsLimit);
      }
      RefillInRange(policy, Stored(key), now);
      var bucket := Refilled(policy, Stored(key), now);
      if cost * policy.window > bucket.level {
        var retryAfter := DurationFor(policy, cost * policy.window - bucket.level);
        buckets := buckets[key := bucket];
        return Decided(Report(policy, bucket.level, now, false, Max(1, CeilDiv(retryAfter, MS))));
      }
      MulMonotone(0, policy.window, cost);
      bucket := bucket.(level := bucket.level - cost * policy.window);
      buckets := buckets[key := bucket];
      return Decided(Report(policy, bucket.level, now, true, 0));
    }
  }

  /** A stored balance is between empty and full. */
  predicate InRange(p: Policy, stored: Option<Bucket>) {
    stored.Some? ==> 0 <= stored.value.level <= Cap(p)
  }

  lemma RefillInRange(p: Policy, stored: Option<Bucket>, now: int)
    requires ValidPolicy(p) && InRange(p, stored)
    ensures InRange(p, Some(Refilled(p, stored, now)))
  {
    MulMonotone(0, p.window, p.limit);
    if stored.Some? && now > stored.value.lastRefill {
      MulMonotone(0, now - stored.value.lastRefill, p.limit);
    }
  }

  /** What a run of requests on one key leaves: the bucket, the answers, the charges. */
  datatype Trace = Trace(bucket: Option<Bucket>, outcomes: seq<Outcome>, charges: seq<Charge>)

  function Run(p: Policy, reqs: seq<Charge>): (tr: Trace)
    requires ValidPolicy(p)
    ensures |tr.outcomes| == |tr.charges| == |reqs|
    ensures forall i :: 0 <= i < |reqs| ==>
                          tr.charges[i] == Charge(reqs[i].at, Charged(tr.outcomes[i], reqs[i].cost))
  {
    if reqs == [] then Trace(None, [], [])
    else
      var r := reqs[|reqs| - 1];
      var before := Run(p, reqs[..|reqs| - 1]);
      var (b, o) := Step(p, before.bucket, r.at, r.cost);
      Trace(b, before.outcomes + [o], before.charges + [Charge(r.at, Charged(o, r.cost))])
  }

  /** Earlier answers do not depend on later requests. */
  lemma {:induction false} RunPrefix(p: Policy, reqs: seq<Charge>, n: nat)
    requires ValidPolicy(p) && n <= |reqs|
    ensures Run(p, reqs[..n]).outcomes == Run(p, reqs).outcomes[..n]
    ensures Run(p, reqs[..n]).charges == Run(p, reqs).charges[..n]
  {
    if n == |reqs| {
      assert reqs[..n] == reqs;
    } else {
      RunPrefix(p, reqs[..|reqs| - 1], n);
      assert reqs[..|reqs| - 1][..n] == reqs[..n];
    }
  }

  function LevelAt(p: Policy, stored: Option<Bucket>, t: int): int {
    Refilled(p, stored, t).level
  }

  /** The invariant of a run: the stored balance is in range and not from the future. */
  lemma {:induction false} RunInvariant(p: Policy, reqs: seq<Charge>, t: int)
    requires ValidPolicy(p) && UpTo(reqs, t)
    ensures var b := Run(p, reqs).bucket;
            InRange(p, b) && (b.Some? ==> b.value.lastRefill <= t)
  {
    if reqs != [] {
      var r := reqs[|reqs| - 1];
      RunInvariant(p, reqs[..|reqs| - 1], t);
      RefillInRange(p, Run(p, reqs[..|reqs| - 1]).bucket, r.at);
      if 0 < r.cost {
        MulMonotone(0, r.cost, p.window);
      }
    }
  }

  /** A refill at `at` and then at `t` is a refill at `t`. */
  lemma RefillTwice(p: Policy, stored: Option<Bucket>, at: int, t: int)
    requires ValidPolicy(p) && InRange(p, stored) && at <= t
    ensures LevelAt(p, Some(Refilled(p, stored, at)), t) == LevelAt(p, stored, t)
  {
    if stored.None? {
      MulMonotone(0, t - at, p.limit);
    } else if at > stored.value.lastRefill {
      RefillComposes(Cap(p), p.limit, stored.value.level, at - stored.value.lastRefill, t - at);
    }
  }

  /** What one call does to the balance seen at any later time. */
  lemma StepLevel(p: Policy, stored: Option<Bucket>, at: int, cost: int, t: int)
    requires ValidPolicy(p) && InRange(p, stored) && at <= t
    requires stored.Some? ==> stored.value.lastRefill <= at
    ensures var (b, o) := Step(p, stored, at, cost);
            LevelAt(p, b, t)
            == if Allowed(o) then Min(Cap(p), LevelAt(p, stored, at) - cost * p.window + p.limit * (t - at))
               else LevelAt(p, stored, t)
  {
    RefillTwice(p, stored, at, t);
    if Allowed(Step(p, stored, at, cost).1) {
      MulMonotone(0, cost, p.window);
      assert t == at ==> p.limit * (t - at) == 0;
    }
  }

  /** One balance and one timestamp carry the whole history. */
  lemma {:induction false} BalanceIsHistory(p: Policy, reqs: seq<Charge>, t: int)
    requires ValidPolicy(p) && Ordered(reqs) && UpTo(reqs, t)
    ensures LevelAt(p, Run(p, reqs).bucket, t) == Level(p, Run(p, reqs).charges, t)
  {
    hide Step;
    if reqs != [] {
      var n := |reqs| - 1;
      var r := reqs[n];
      var before := Run(p, reqs[..n]);
      var tr := Run(p, reqs);
      assert tr.charges[..n] == before.charges;
      RunInvariant(p, reqs[..n], r.at);
      StepLevel(p, before.bucket, r.at, r.cost, t);
      if Allowed(tr.outcomes[n]) {
        BalanceIsHistory(p, reqs[..n], r.at);
      } else {
        BalanceIsHistory(p, reqs[..n], t);
        IdleChargeInvisible(p, before.charges, r.at, t);
        assert tr.charges == before.charges + [Charge(r.at, 0)];
      }
    }
  }

  /** The i-th answer is one step from what the first i requests left. */
  lemma {:induction false} OutcomeAt(p: Policy, reqs: seq<Charge>, i: nat)
    requires ValidPolicy(p) && i < |reqs|
    ensures Run(p, reqs).outcomes[i] == Step(p, Run(p, reqs[..i]).bucket, reqs[i].at, reqs[i].cost).1
    ensures Run(p, reqs).charges[..i] == Run(p, reqs[..i]).charges
  {
    RunPrefix(p, reqs, i);
    RunPrefix(p, reqs, i + 1);
    assert reqs[..i + 1][..i] == reqs[..i];
    assert Run(p, reqs).outcomes[i] == Run(p, reqs[..i + 1]).outcomes[i];
  }

  /** An answer depends on the past only through the balance of its charges. */
  lemma {:induction false} AllowedIffCovered(p: Policy, reqs: seq<Charge>, i: nat)
    requires ValidPolicy(p) && Ordered(reqs) && i < |reqs|
    ensures var tr := Run(p, reqs);
            Allowed(tr.outcomes[i]) <==>
            0 < reqs[i].cost <= p.limit && reqs[i].cost * p.window <= Level(p, tr.charges[..i], reqs[i].at)
  {
    OutcomeAt(p, reqs, i);
    BalanceIsHistory(p, reqs[..i], reqs[i].at);
  }

  /**
   The admission law. In a run whose clock never steps back, a request within the limit is
   allowed exactly when, from every request so far up to this one, the cost approved since
   plus this cost is at most the limit plus what the elapsed time refills.
   */
  lemma {:induction false} AdmissionLaw(p: Policy, reqs: seq<Charge>, i: nat)
    requires ValidPolicy(p) && Ordered(reqs) && i < |reqs|
    requires 0 < reqs[i].cost <= p.limit
    ensures var tr := Run(p, reqs);
            Allowed(tr.outcomes[i]) <==>
            forall j :: 0 <= j < i ==>
                          (Spent(tr.charges[..i], j) + reqs[i].cost) * p.window
                          <= p.limit * p.window + p.limit * (reqs[i].at - reqs[j].at)
  {
    hide Run, Level;
    AllowedIffCovered(p, reqs, i);
    FitsRequests(p, reqs, Run(p, reqs).charges[..i], i);
  }

  lemma FitsRequests(p: Policy, reqs: seq<Charge>, h: seq<Charge>, i: nat)
    requires ValidPolicy(p) && i == |h| < |reqs|
    requires 0 < reqs[i].cost <= p.limit
    requires forall j :: 0 <= j < i ==> h[j].at == reqs[j].at
    ensures reqs[i].cost * p.window <= Level(p, h, reqs[i].at) <==>
            forall j :: 0 <= j < i ==>
                          (Spent(h, j) + reqs[i].cost) * p.window
                          <= p.limit * p.window + p.limit * (reqs[i].at - reqs[j].at)
  {
    LevelCoversIffFits(p, h, reqs[i].at, reqs[i].cost);
    assert forall j :: 0 <= j < i ==>
                         (SuffixFits(p, h, j, reqs[i].at, reqs[i].cost) <==>
                          (Spent(h, j) + reqs[i].cost) * p.window
                          <= p.limit * p.window + p.limit * (reqs[i].at - reqs[j].at));
  }

  /** Every charge of a run was covered by the balance at its time. */
  lemma {:induction false} RunIsBacked(p: Policy, reqs: seq<Charge>)
    requires ValidPolicy(p) && Ordered(reqs)
    ensures Backed(p, Run(p, reqs).charges)
  {
    hide Step, Level;
    if reqs != [] {
      var n := |reqs| - 1;
      var before := Run(p, reqs[..n]).charges;
      RunIsBacked(p, reqs[..n]);
      BalanceNonnegative(p, before, reqs[n].at);
      RunPrefix(p, reqs, n);
      AllowedIffCovered(p, reqs, n);
      BackedExtend(p, before, Run(p, reqs).charges[n]);
      assert Run(p, reqs).charges == before + [Run(p, reqs).charges[n]];
    }
  }

  /** Any closed interval of a run approves at most the limit plus the interval's refill. */
  lemma {:induction false} RunEnvelope(p: Policy, reqs: seq<Charge>, lo: int, hi: int)
    requires ValidPolicy(p) && Ordered(reqs) && lo <= hi
    ensures CostIn(Run(p, reqs).charges, lo, hi) * p.window <= p.limit * p.window + p.limit * (hi - lo)
  {
    RunIsBacked(p, reqs);
    Envelope(p, Run(p, reqs).charges, lo, hi);
  }

  /** Two stored buckets that no request from `now` on can tell apart. */
  ghost predicate SameFrom(p: Policy, a: Option<Bucket>, b: Option<Bucket>, now: int) {
    forall t :: now <= t ==> LevelAt(p, a, t) == LevelAt(p, b, t)
  }

  predicate Settled(p: Policy, stored: Option<Bucket>, now: int) {
    InRange(p, stored) && (stored.Some? ==> stored.value.lastRefill <= now)
  }

  lemma SameTransitive(p: Policy, a: Option<Bucket>, b: Option<Bucket>, c: Option<Bucket>, now: int)
    requires SameFrom(p, a, b, now) && SameFrom(p, b, c, now)
    ensures SameFrom(p, a, c, now)
  {
  }

  lemma SameReflexive(p: Policy, a: Option<Bucket>, now: int)
    ensures SameFrom(p, a, a, now)
  {
  }

  lemma SameLater(p: Policy, a: Option<Bucket>, b: Option<Bucket>, now: int, later: int)
    requires SameFrom(p, a, b, now) && now <= later
    ensures SameFrom(p, a, b, later)
  {
  }

  /** Indistinguishable buckets give the same answer and stay indistinguishable. */
  lemma StepKeepsSame(p: Policy, a: Option<Bucket>, b: Option<Bucket>, at: int, cost: int)
    requires ValidPolicy(p) && Settled(p, a, at) && Settled(p, b, at) && SameFrom(p, a, b, at)
    ensures Step(p, a, at, cost).1 == Step(p, b, at, cost).1
    ensures SameFrom(p, Step(p, a, at, cost).0, Step(p, b, at, cost).0, at)
  {
    assert LevelAt(p, a, at) == LevelAt(p, b, at);
    forall t | at <= t
      ensures LevelAt(p, Step(p, a, at, cost).0, t) == LevelAt(p, Step(p, b, at, cost).0, t)
    {
      StepLevel(p, a, at, cost, t);
      StepLevel(p, b, at, cost, t);
    }
  }

  /** A refused request leaves a bucket indistinguishable from the one it found. */
  lemma RefusalKeepsSame(p: Policy, a: Option<Bucket>, at: int, cost: int)
    requires ValidPolicy(p) && Settled(p, a, at)
    requires !Allowed(Step(p, a, at, cost).1)
    ensures SameFrom(p, Step(p, a, at, cost).0, a, at)
  {
    forall t | at <= t ensures LevelAt(p, Step(p, a, at, cost).0, t) == LevelAt(p, a, t) {
      StepLevel(p, a, at, cost, t);
    }
  }

  lemma {:induction false} SelectUpTo(reqs: seq<Charge>, keep: seq<bool>, t: int)
    requires |keep| == |reqs| && UpTo(reqs, t)
    ensures UpTo(Select(reqs, keep), t)
  {
    if reqs != [] {
      SelectUpTo(reqs[..|reqs| - 1], keep[..|reqs| - 1], t);
    }
  }

  /**
   Refusals are invisible: dropping any refused requests from a run whose clock never
   steps back changes no other answer, although each denial stored a refilled balance.
   */
  lemma {:induction false} RefusalsInvisible(p: Policy, reqs: seq<Charge>, keep: seq<bool>, now: int)
    requires ValidPolicy(p) && Ordered(reqs) && UpTo(reqs, now) && |keep| == |reqs|
    requires forall i :: 0 <= i < |reqs| && !keep[i] ==> !Allowed(Run(p, reqs).outcomes[i])
    ensures Run(p, Select(reqs, keep)).outcomes == Select(Run(p, reqs).outcomes, keep)
    ensures SameFrom(p, Run(p, reqs).bucket, Run(p, Select(reqs, keep)).bucket, now)
  {
    hide Step, SameFrom;
    if reqs == [] {
      SameReflexive(p, None, now);
    }
    if reqs != [] {
      var n := |reqs| - 1;
      var r := reqs[n];
      var dropped := Select(reqs[..n], keep[..n]);
      RunPrefix(p, reqs, n);
      RefusalsInvisible(p, reqs[..n], keep[..n], r.at);
      SelectUpTo(reqs[..n], keep[..n], r.at);
      RunInvariant(p, reqs[..n], r.at);
      RunInvariant(p, dropped, r.at);
      if keep[n] {
        RunAppend(p, dropped, r);
        StepKeepsSame(p, Run(p, reqs[..n]).bucket, Run(p, dropped).bucket, r.at, r.cost);
      } else {
        assert Select(reqs, keep) == dropped;
        RefusalKeepsSame(p, Run(p, reqs[..n]).bucket, r.at, r.cost);
        SameTransitive(p, Run(p, reqs).bucket, Run(p, reqs[..n]).bucket, Run(p, dropped).bucket, r.at);
      }
      SameLater(p, Run(p, reqs).bucket, Run(p, Select(reqs, keep)).bucket, r.at, now);
    }
  }

  lemma {:induction false} RunAppend(p: Policy, h: seq<Charge>, r: Charge)
    requires ValidPolicy(p)
    ensures var before, after := Run(p, h), Run(p, h + [r]);
            && after.bucket == Step(p, before.bucket, r.at, r.cost).0
            && after.outcomes == before.outcomes + [Step(p, before.bucket, r.at, r.cost).1]
  {
    assert (h + [r])[..|h|] == h;
  }

  /** What any calls, on any keys, leave in the limiter, and their answers. */
  function ServeAll(policies: map<Key, Policy>, calls: seq<Call>): (r: (map<Key, Bucket>, seq<Outcome>))
    requires ValidPolicies(policies)
    ensures |r.1| == |calls|
  {
    if calls == [] then (map[], [])
    else
      var (buckets, outcomes) := ServeAll(policies, calls[..|calls| - 1]);
      var (buckets', o) := Serve(policies, buckets, calls[|calls| - 1]);
      (buckets', outcomes + [o])
  }

  /** Keys do not interfere: what a key's calls are answered is that key's own run. */
  lemma {:induction false} MixedRun(policies: map<Key, Policy>, calls: seq<Call>, key: Key)
    requires ValidPolicies(policies) && key in policies
    ensures var tr := Run(policies[key], RequestsOf(calls, key));
            && Lookup(ServeAll(policies, calls).0, key) == tr.bucket
            && AnswersOf(calls, ServeAll(policies, calls).1, key) == tr.outcomes
  {
    hide Step, Run;
    if calls == [] {
      EmptyRun(policies[key]);
    } else {
      var n := |calls| - 1;
      var call, p, before := calls[n], policies[key], RequestsOf(calls[..n], key);
      MixedRun(policies, calls[..n], key);
      assert ServeAll(policies, calls).1[..n] == ServeAll(policies, calls[..n]).1;
      if OnKey(call, key) {
        RunAppend(p, before, Charge(call.at, call.cost));
        RejectionStoresNothing(p, Run(p, before).bucket, call.at, call.cost);
      } else {
        assert RequestsOf(calls, key) == before;
      }
    }
  }

  lemma EmptyRun(p: Policy)
    requires ValidPolicy(p)
    ensures Run(p, []) == Trace(None, [], [])
  {
  }

  lemma RejectionStoresNothing(p: Policy, stored: Option<Bucket>, now: int, cost: int)
    requires ValidPolicy(p)
    ensures var (b, o) := Step(p, stored, now, cost);
            && (cost <= 0 ==> o == Refused(InvalidCost))
            && (if o.Decided? then b.Some? else b == stored)
            && (o.Decided? <==> 0 < cost <= p.limit)
  {
  }

  /**
   Which answers there are: a cost that is not positive or above the limit is an error, any
   other is decided, and reports the limit, no wait when allowed and some wait when denied.
   A decision leaves a bucket brought up to its time, a denial's too.
   */
  lemma AnswerForm(p: Policy, stored: Option<Bucket>, now: int, cost: int)
    requires ValidPolicy(p)
    ensures var (b, o) := Step(p, stored, now, cost);
            && (cost <= 0 ==> o == Refused(InvalidCost) && b == stored)
            && (p.limit < cost ==> o == Refused(CostExceedsLimit) && b == stored)
            && (0 < cost <= p.limit ==>
                  && o.Decided? && o.decision.limit == p.limit
                  && (if Allowed(o) then o.decision.retryAfterMS == 0 else o.decision.retryAfterMS >= 1)
                  && b.Some? && b.value.lastRefill == (if stored.Some? then Max(stored.value.lastRefill, now) else now))
  {
  }

  /** A clock behind the last refill is a clock that stands still. */
  lemma StepBackIsStill(p: Policy, b: Bucket, now: int, cost: int)
    requires ValidPolicy(p) && now <= b.lastRefill
    ensures var (early, o), (still, q) := Step(p, Some(b), now, cost), Step(p, Some(b), b.lastRefill, cost);
            && early == still
            && (o.Decided? ==>
                  && q == Decided(o.decision.(resetAt := q.decision.resetAt))
                  && o.decision.resetAt - now == q.decision.resetAt - b.lastRefill)
            && (!o.Decided? ==> o == q)
  {
  }

  /** `remaining` is exactly the largest cost a further request at the same instant may have. */
  lemma RemainingExact(p: Policy, stored: Option<Bucket>, now: int, cost: int, next: int)
    requires ValidPolicy(p) && InRange(p, stored) && 0 < next <= p.limit
    requires Step(p, stored, now, cost).1.Decided?
    ensures var (b, o) := Step(p, stored, now, cost);
            Allowed(Step(p, b, now, next).1) <==> next <= o.decision.remaining
  {
    var b := Step(p, stored, now, cost).0;
    FloorDivGreatest(b.value.level, p.window, next);
  }

  /** The rounded hint is the least whole number of milliseconds that refills the deficit. */
  lemma RetryMilliseconds(limit: int, deficit: int, m: int)
    requires limit > 0 && deficit > 0
    ensures m >= Max(1, CeilDiv(CeilDiv(deficit, limit), MS)) <==> deficit <= limit * (m * MS)
  {
    NestedCeil(deficit, limit, MS);
    CeilDivLeast(deficit, limit * MS, m);
    CeilDivLeast(deficit, limit * MS, 0);
    assert m * (limit * MS) == limit * (m * MS);
  }

  /**
   Retry hints are exact. After a denial, the same request made m whole milliseconds later,
   with nothing approved between, is allowed if and only if m is at least the hint.
   */
  lemma RetryHintExact(p: Policy, stored: Option<Bucket>, now: int, cost: int, m: nat)
    requires ValidPolicy(p) && InRange(p, stored)
    requires stored.Some? ==> stored.value.lastRefill <= now
    requires var o := Step(p, stored, now, cost).1; o.Decided? && !o.decision.allowed
    ensures var (b, o) := Step(p, stored, now, cost);
            Allowed(Step(p, b, now + m * MS, cost).1) <==> m >= o.decision.retryAfterMS
  {
    var b := Refilled(p, stored, now);
    CoveredByCap(p, cost);
    RetryMilliseconds(p.limit, cost * p.window - b.level, m);
    assert LevelAt(p, Some(b), now + m * MS) >= cost * p.window <==>
           b.level + p.limit * (m * MS) >= cost * p.window;
  }

  /** The least instant from which a balance, left alone, is full. */
  lemma FullFrom(p: Policy, level: int, now: int, t: int)
    requires ValidPolicy(p)
    ensures Min(Cap(p), level + p.limit * (t - now)) == Cap(p) <==> t >= now + DurationFor(p, Cap(p) - level)
  {
    CeilDivLeast(Cap(p) - level, p.limit, t - now);
    assert p.limit * (t - now) == (t - now) * p.limit;
  }

  /** `resetAt` is the least instant from which the bucket, left alone, is full. */
  lemma ResetHintExact(p: Policy, stored: Option<Bucket>, now: int, cost: int, t: int)
    requires ValidPolicy(p) && InRange(p, stored)
    requires stored.Some? ==> stored.value.lastRefill <= now
    requires now <= t
    requires Step(p, stored, now, cost).1.Decided?
    ensures var (b, o) := Step(p, stored, now, cost);
            LevelAt(p, b, t) == Cap(p) <==> t >= o.decision.resetAt
  {
    var (b, o) := Step(p, stored, now, cost);
    RefillInRange(p, stored, now);
    MulMonotone(0, cost, p.window);
    FullFrom(p, b.value.level, now, t);
    assert t == now ==> p.limit * (t - now) == 0;
  }

  /** The latest time of a nonempty run. */
  function Latest(reqs: seq<Charge>): int
    requires reqs != []
  {
    if |reqs| == 1 then reqs[0].at
    else Max(Latest(reqs[..|reqs| - 1]), reqs[|reqs| - 1].at)
  }

  /** What was spent and what is left, against a full bucket and the refill since `first`. */
  predicate WithinCredit(p: Policy, b: Bucket, spent: int, first: int) {
    0 <= b.level && b.level + spent * p.window <= Cap(p) + p.limit * (b.lastRefill - first)
  }

  lemma StepWithinCredit(p: Policy, b: Bucket, spent: int, first: int, r: Charge)
    requires ValidPolicy(p) && WithinCredit(p, b, spent, first) && 0 < r.cost <= p.limit
    ensures var (b', o) := Step(p, Some(b), r.at, r.cost);
            && b'.Some?
            && b'.value.lastRefill == Max(b.lastRefill, r.at)
            && WithinCredit(p, b'.value, spent + Charged(o, r.cost), first)
  {
    DistributeCost(spent, r.cost, p.window);
    MulMonotone(0, p.window, p.limit);
    if r.at > b.lastRefill {
      MulMonotone(0, r.at - b.lastRefill, p.limit);
      DistributeTime(p.limit, first, b.lastRefill, r.at);
    }
  }

  /** The invariant behind the credit bound. */
  lemma {:induction false} RunWithinCredit(p: Policy, reqs: seq<Charge>)
    requires ValidPolicy(p) && reqs != []
    requires forall i :: 0 <= i < |reqs| ==> 0 < reqs[i].cost <= p.limit
    ensures var tr := Run(p, reqs);
            && tr.bucket.Some?
            && tr.bucket.value.lastRefill == Latest(reqs)
            && WithinCredit(p, tr.bucket.value, Spent(tr.charges, 0), reqs[0].at)
  {
    var n := |reqs| - 1;
    var before, after := Run(p, reqs[..n]), Run(p, reqs);
    assert after.charges[..n] == before.charges;
    if n == 0 {
      CoveredByCap(p, reqs[0].cost);
      assert Spent(after.charges, 0) == Spent(before.charges, 0) + after.charges[0].cost;
    } else {
      RunWithinCredit(p, reqs[..n]);
      StepWithinCredit(p, before.bucket.value, Spent(before.charges, 0), reqs[0].at, reqs[n]);
    }
  }

  /** The requests that read the clock: those whose cost is not rejected outright. */
  function Timed(p: Policy, reqs: seq<Charge>): seq<Charge> {
    if reqs == [] then []
    else
      var r := reqs[|reqs| - 1];
      Timed(p, reqs[..|reqs| - 1]) + (if 0 < r.cost <= p.limit then [r] else [])
  }

  /** Rejected requests change neither the bucket nor what was spent. */
  lemma {:induction false} TimedRun(p: Policy, reqs: seq<Charge>)
    requires ValidPolicy(p)
    ensures Run(p, Timed(p, reqs)).bucket == Run(p, reqs).bucket
    ensures Spent(Run(p, Timed(p, reqs)).charges, 0) == Spent(Run(p, reqs).charges, 0)
    ensures forall i :: 0 <= i < |Timed(p, reqs)| ==> 0 < Timed(p, reqs)[i].cost <= p.limit
  {
    hide Step, Run, Spent;
    if reqs != [] {
      var n := |reqs| - 1;
      var before, r := Timed(p, reqs[..n]), reqs[n];
      TimedRun(p, reqs[..n]);
      RejectionStoresNothing(p, Run(p, reqs[..n]).bucket, r.at, r.cost);
      SpentAppend(p, reqs[..n], r);
      assert reqs[..n] + [r] == reqs;
      if 0 < r.cost <= p.limit {
        SpentAppend(p, before, r);
      } else {
        assert Timed(p, reqs) == before;
      }
    }
  }

  lemma {:induction false} SpentAppend(p: Policy, h: seq<Charge>, r: Charge)
    requires ValidPolicy(p)
    ensures var (b, o), before, after := Step(p, Run(p, h).bucket, r.at, r.cost), Run(p, h), Run(p, h + [r]);
            after.bucket == b && Spent(after.charges, 0) == Spent(before.charges, 0) + Charged(o, r.cost)
  {
    hide Step;
    assert (h + [r])[..|h|] == h;
    assert Run(p, h + [r]).charges[..|h|] == Run(p, h).charges;
  }

  /**
   Credit under any clock: even when time steps back, the total approved cost is at most
   the limit plus the refill from the first time seen to the latest. Requests rejected for
   their cost see no time.
   */
  lemma CreditUnderAnyClock(p: Policy, reqs: seq<Charge>)
    requires ValidPolicy(p)
    ensures var seen, spent := Timed(p, reqs), Spent(Run(p, reqs).charges, 0);
            if seen == [] then spent == 0
            else spent * p.window <= p.limit * p.window + p.limit * (Latest(seen) - seen[0].at)
  {
    hide Step, Run, WithinCredit;
    TimedRun(p, reqs);
    if Timed(p, reqs) == [] {
      EmptyRun(p);
    } else {
      RunWithinCredit(p, Timed(p, reqs));
      CreditBound(p, Run(p, Timed(p, reqs)).bucket.value, Spent(Run(p, reqs).charges, 0), Timed(p, reqs)[0].at);
    }
  }

  lemma CreditBound(p: Policy, b: Bucket, spent: int, first: int)
    requires WithinCredit(p, b, spent, first)
    ensures spent * p.window <= p.limit * p.window + p.limit * (b.lastRefill - first)
  {
  }
}
