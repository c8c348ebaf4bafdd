/**
 What a caller is told, and what it cost: one check through the breaker, the Redis limiter
 and the script, whatever is lost on the way (internal/ratelimiter/circuit-breaker.go,
 cmd/api/check.go).
 */
module Delivery {
  import opened Limits
  import opened History
  import opened Service
  import Billing
  import RedisLimiter
  import Breaker = CircuitBreaker
  import Bucket = RedisBucket

  /**
   One check: what is asked, whether the breaker admits it, what becomes of the call to Redis,
   and whether the caller itself has gone by the time it ends.
   */
  datatype Attempt = Attempt(key: Key, cost: int, admitted: bool, fate: Fate, callerGone: bool)

  /** What the breaker returns. */
  function Delivered(c: Config, s: System, a: Attempt): Outcome
    requires ValidConfig(c)
  {
    if !a.admitted then Refused(DependencyFailure)
    else
      var o := LimiterAnswer(c, s, a.key, a.cost, a.fate);
      if Breaker.Classify(o, a.callerGone) == Breaker.Failure then Refused(DependencyFailure) else o
  }

  function Effect(c: Config, s: System, a: Attempt): System
    requires ValidConfig(c)
  {
    if a.admitted then LimiterEffect(c, s, a.key, a.cost, a.fate) else s
  }

  /** The outcomes the API answers with status 503. */
  predicate Unavailable(o: Outcome) {
    o == Refused(DependencyFailure) || o == Refused(EventBacklogFull)
  }

  /** `CircuitBreakerLimiter.Allow` around the Redis limiter, with no other call in between. */
  method Allow(breaker: Breaker.CircuitBreakerLimiter, limiter: RedisLimiter.RedisTokenBucketRateLimiter,
               startedAt: int, nowMS: int, finishedAt: int, key: Key, cost: int, fate: Fate, callerGone: bool)
    returns (outcome: Outcome)
    requires ValidConfig(limiter.config) && limiter.server.Valid()
    modifies breaker, limiter.server
    ensures limiter.server.Valid()
    ensures var c, s := limiter.config, old(limiter.server.View(nowMS));
            var (started, admitted) := Breaker.Start(breaker.config, old(breaker.View()), startedAt);
            var a := Attempt(key, cost, admitted, fate, callerGone);
            && outcome == Delivered(c, s, a)
            && limiter.server.View(nowMS) == Effect(c, s, a)
            && breaker.View()
               == if !admitted then started
                  else Breaker.Finish(breaker.config, started, finishedAt,
                                      Breaker.Classify(LimiterAnswer(c, s, key, cost, fate), callerGone))
  {
    var admitted := breaker.StartRequest(startedAt);
    if !admitted {
      return Refused(DependencyFailure);
    }
    var answer := limiter.Allow(nowMS, key, cost, fate);
    outcome := breaker.Complete(finishedAt, answer, callerGone);
  }

  /** The envelope over the key's approvals has room for the cost. */
  predicate HasTokens(c: Config, s: System, key: Key, cost: int)
    requires key in c.policies
  {
    Fits(Bucket.ScriptPolicy(c.policies[key]), Billing.KeyCharges(s.history, key), s.clock, cost)
  }

  /**
   What the breaker learns from a call of the Redis limiter, in every reachable state. A
   failure exactly when the caller is still there and the context had ended, or a request
   the instance would not reject got no reply. A success exactly when the script replied to such a
   request with a decision. So what the instance rejects, and a full backlog, is neither.
   */
  lemma {:induction false} ReportExact(c: Config, acts: seq<Action>, key: Key, cost: int, fate: Fate, callerGone: bool)
    requires ValidConfig(c)
    ensures var s := Run(c, acts);
            var report := Breaker.Classify(LimiterAnswer(c, s, key, cost, fate), callerGone);
            var asked := key in c.policies && 0 < cost <= c.policies[key].limit;
            && (report == Breaker.Failure <==>
                !callerGone && (fate == ContextEnded || (asked && (fate == NeverRan || fate == ReplyLost))))
            && (report == Breaker.Success <==>
                asked && fate == Replied && !(|s.store.stream| >= c.maxBacklog && HasTokens(c, s, key, cost)))
  {
    hide Run, Answer, Fits, Billing.KeyCharges;
    Billing.AnswerExact(c, acts, key, cost);
  }

  /** A check that Redis answered or that the instance rejected never counts against Redis. */
  lemma {:induction false} AnsweredNeverTrips(
    config: Breaker.Config, b: Breaker.Breaker, at: int,
    c: Config, acts: seq<Action>, key: Key, cost: int, fate: Fate, callerGone: bool)
    requires ValidConfig(c) && 0 <= b.failures
    requires fate == Replied || (fate != ContextEnded && (cost <= 0 || key !in c.policies || cost > c.policies[key].limit))
    ensures var report := Breaker.Classify(LimiterAnswer(c, Run(c, acts), key, cost, fate), callerGone);
            var after := Breaker.Finish(config, b, at, report);
            after.failures <= b.failures && (b.state == Breaker.Closed ==> after.state == Breaker.Closed)
  {
    hide Run, LimiterAnswer, Breaker.Classify;
    ReportExact(c, acts, key, cost, fate, callerGone);
  }

  /**
   Exactly when a caller is told yes. In every reachable state: the breaker admitted the
   attempt, the reply arrived, and the service's admission law holds; the key is then charged
   the cost, once. A decision, yes or no, is the last answer of the key's own run. An attempt
   the breaker does not admit is told that the dependency failed, and changes nothing.
   */
  lemma {:induction false} DeliveredExact(c: Config, acts: seq<Action>, a: Attempt)
    requires ValidConfig(c)
    ensures var s := Run(c, acts);
            var o, t := Delivered(c, s, a), Effect(c, s, a);
            && (Allowed(o) <==>
                && a.admitted && a.fate == Replied && a.key in c.policies && 0 < a.cost
                && |s.store.stream| < c.maxBacklog && HasTokens(c, s, a.key, a.cost))
            && (Allowed(o) ==>
                  && |t.history| == |s.history| + 1
                  && Billing.KeyCharges(t.history, a.key)
                     == Billing.KeyCharges(s.history, a.key) + [Charge(s.clock, a.cost)])
            && (o.Decided? ==>
                  && a.key in c.policies
                  && var now := Bucket.Check(s.clock, a.cost, |s.store.stream| < c.maxBacklog);
                     var tr := Bucket.Run(c.policies[a.key], Billing.Project(c, acts, a.key) + [now]);
                     tr.outcomes[|tr.outcomes| - 1] == Some(o))
            && (!a.admitted ==> o == Refused(DependencyFailure) && t == s)
  {
    hide Run, Apply, Answer, Fits, Billing.KeyCharges, Bucket.Run, Billing.Project;
    var s := Run(c, acts);
    Billing.AnswerExact(c, acts, a.key, a.cost);
    Billing.ApprovedIffAppended(c, s, a.key, a.cost);
    if a.key in c.policies {
      Billing.ServiceAdmissionLaw(c, acts, a.key, a.cost);
      ChargedOnce(c, s, a.key, a.cost);
      Billing.KeyIsolation(c, acts, a.key, a.cost);
    }
  }

  /** Every error a caller of the breaker is told, once admitted. */
  lemma {:induction false} DeliveredErrors(c: Config, acts: seq<Action>, a: Attempt)
    requires ValidConfig(c) && a.admitted
    ensures var s := Run(c, acts);
            var o := Delivered(c, s, a);
            if a.fate == ContextEnded then o == Refused(if a.callerGone then Cancelled else DependencyFailure)
            else if a.cost <= 0 then o == Refused(InvalidCost)
            else if a.key !in c.policies then o == Refused(NoPolicy)
            else if a.cost > c.policies[a.key].limit then o == Refused(CostExceedsLimit)
            else if a.fate != Replied then o == Refused(if a.callerGone then CallFailed else DependencyFailure)
            else if |s.store.stream| >= c.maxBacklog && HasTokens(c, s, a.key, a.cost) then o == Refused(EventBacklogFull)
            else o.Decided?
  {
    hide Run, Answer, Fits, Billing.KeyCharges;
    Billing.AnswerExact(c, acts, a.key, a.cost);
  }

  /** This answer leaves a charge behind. */
  predicate Spends(c: Config, s: System, a: Attempt)
    requires ValidConfig(c)
  {
    |Effect(c, s, a).history| > |s.history|
  }

  /**
   Exactly which 503 answers spend quota. In every reachable state, an attempt is answered
   503 and charged if and only if the script's reply was lost on the way to a caller still
   there, and the script had room and found the cost covered. So neither an open breaker nor a
   full backlog ever charges, and what is charged is the cost, once, to the key.
   */
  lemma {:induction false} UnavailableSpends(c: Config, acts: seq<Action>, a: Attempt)
    requires ValidConfig(c)
    ensures var s := Run(c, acts);
            Unavailable(Delivered(c, s, a)) && Spends(c, s, a) <==>
            && a.admitted && a.fate == ReplyLost && !a.callerGone
            && a.key in c.policies && 0 < a.cost && |s.store.stream| < c.maxBacklog && HasTokens(c, s, a.key, a.cost)
    ensures var s := Run(c, acts);
            Spends(c, s, a) ==>
              Billing.KeyCharges(Effect(c, s, a).history, a.key)
              == Billing.KeyCharges(s.history, a.key) + [Charge(s.clock, a.cost)]
  {
    hide Run, Apply, Answer, Fits, Billing.KeyCharges;
    var s := Run(c, acts);
    Billing.ApprovedIffAppended(c, s, a.key, a.cost);
    UnlistedDenied(c, s, a.key, a.cost);
    AllowedIsNotRejected(c, s, a.key, a.cost);
    if a.key in c.policies {
      Billing.ServiceAdmissionLaw(c, acts, a.key, a.cost);
      ChargedOnce(c, s, a.key, a.cost);
    }
  }

  lemma UnlistedDenied(c: Config, s: System, key: Key, cost: int)
    requires ValidConfig(c)
    ensures key !in c.policies ==> !Allowed(Answer(c, s, key, cost))
  {
  }

  lemma AllowedIsNotRejected(c: Config, s: System, key: Key, cost: int)
    requires ValidConfig(c)
    ensures Allowed(Answer(c, s, key, cost)) ==> !Rejected(c, key, cost)
  {
  }

  lemma ChargedOnce(c: Config, s: System, key: Key, cost: int)
    requires ValidConfig(c) && key in c.policies
    ensures Allowed(Answer(c, s, key, cost)) ==>
              Billing.KeyCharges(Apply(c, s, Check(key, cost)).history, key)
              == Billing.KeyCharges(s.history, key) + [Charge(s.clock, cost)]
  {
    hide Answer, ApplyCheck, Billing.KeyCharges;
    Billing.CheckBucket(c, s, key, cost);
  }

  /** For every service: a first check whose reply is lost is answered 503, and is charged. */
  lemma {:induction false} LostReplyCharges(c: Config, key: Key, cost: int)
    requires ValidConfig(c) && key in c.policies && 0 < cost <= c.policies[key].limit
    ensures var a := Attempt(key, cost, true, ReplyLost, false);
            && Delivered(c, START, a) == Refused(DependencyFailure)
            && Billing.KeyCharges(Effect(c, START, a).history, key) == [Charge(0, cost)]
  {
    hide Bucket.Step, Fits, Billing.KeyCharges;
    var a := Attempt(key, cost, true, ReplyLost, false);
    assert Run(c, []) == START;
    NothingCharged(Bucket.ScriptPolicy(c.policies[key]), key, cost);
    UnavailableSpends(c, [], a);
  }

  lemma NothingCharged(p: Policy, key: Key, cost: int)
    requires cost <= p.limit
    ensures Billing.KeyCharges([], key) == [] && Fits(p, [], 0, cost)
  {
  }
}
