/**
 The expiring Redis bucket against the in-memory bucket that never forgets, and the
 credit a Redis bucket can hand out when its clock steps back.
 */
module BucketRefinement {
  import opened Arithmetic
  import opened Limits
  import opened History
  import Memory = TokenBucket
  import Redis = RedisBucket

  /** The requests an in-memory limiter would have seen: the checks, in nanoseconds. */
  function Requests(acts: seq<Redis.Action>): seq<Charge> {
    if acts == [] then []
    else
      var a := acts[|acts| - 1];
      Requests(acts[..|acts| - 1]) + (if a.Check? then [Charge(a.at * MS, a.cost)] else [])
  }

  /** The answers given to checks. */
  function Answers(outcomes: seq<Option<Outcome>>): seq<Outcome> {
    if outcomes == [] then []
    else
      var o := outcomes[|outcomes| - 1];
      Answers(outcomes[..|outcomes| - 1]) + (if o.Some? then [o.value] else [])
  }

  /** The same answer, with the reset time rounded up to a whole millisecond. */
  predicate Agree(redis: Outcome, memory: Outcome) {
    match (redis, memory)
    case (Refused(e), Refused(f)) => e == f
    case (Decided(d), Decided(m)) =>
      && d.allowed == m.allowed
      && d.limit == m.limit
      && d.remaining == m.remaining
      && d.retryAfterMS == m.retryAfterMS
      && d.resetAt == CeilDiv(m.resetAt, MS) * MS
    case _ => false
  }

  predicate AllAgree(redis: seq<Outcome>, memory: seq<Outcome>) {
    |redis| == |memory| && forall i :: 0 <= i < |redis| ==> Agree(redis[i], memory[i])
  }

  /** Both buckets hold the same tokens at every millisecond from `now` on. */
  ghost predicate Mirrors(p: Policy, r: Option<Redis.Bucket>, m: Option<Memory.Bucket>, now: int) {
    forall t :: now <= t ==> MirrorsAt(p, r, m, t)
  }

  predicate MirrorsAt(p: Policy, r: Option<Redis.Bucket>, m: Option<Memory.Bucket>, t: int) {
    Memory.LevelAt(p, m, t * MS) == Redis.Refill(Redis.ScriptPolicy(p), r, t) * MS
  }

  /** A window of whole milliseconds is not changed by rounding up. */
  lemma WholeWindow(p: Policy)
    requires ValidPolicy(p) && p.window % MS == 0
    ensures p.window == Redis.ScriptPolicy(p).window * MS
    ensures ValidPolicy(Redis.ScriptPolicy(p))
    ensures Cap(p) == Cap(Redis.ScriptPolicy(p)) * MS
  {
    Redis.ScriptPolicyValid(p);
    CeilDivShift(p.window / MS, 0, MS);
    assert p.limit * (Redis.ScriptPolicy(p).window * MS) == (p.limit * Redis.ScriptPolicy(p).window) * MS;
  }

  /** Rounding in nanoseconds and then to milliseconds is rounding in milliseconds. */
  lemma RoundsAlike(limit: int, scaled: int, now: int)
    requires limit > 0
    ensures CeilDiv(CeilDiv(scaled * MS, limit), MS) == CeilDiv(scaled, limit)
    ensures CeilDiv(now * MS + CeilDiv(scaled * MS, limit), MS) == now + CeilDiv(scaled, limit)
  {
    NestedCeil(scaled * MS, limit, MS);
    CeilDivScale(scaled, limit, MS);
    CeilDivShift(now, CeilDiv(scaled * MS, limit), MS);
  }

  lemma ReportsAgree(p: Policy, level: int, now: int)
    requires ValidPolicy(p) && p.window % MS == 0
    ensures var sp := Redis.ScriptPolicy(p);
            && ValidPolicy(sp)
            && (level * MS) / p.window == level / sp.window
            && CeilDiv(now * MS + Memory.DurationFor(p, Cap(p) - level * MS), MS)
               == now + CeilDiv(Cap(sp) - level, sp.limit)
  {
    var sp := Redis.ScriptPolicy(p);
    WholeWindow(p);
    FloorDivScale(level, sp.window, MS);
    RoundsAlike(p.limit, Cap(sp) - level, now);
    assert Cap(p) - level * MS == (Cap(sp) - level) * MS;
  }

  /** Mirrored buckets answer a check alike. */
  lemma StepsAgree(p: Policy, r: Option<Redis.Bucket>, m: Option<Memory.Bucket>, at: int, cost: int)
    requires ValidPolicy(p) && p.window % MS == 0
    requires MirrorsAt(p, r, m, at)
    ensures Agree(Redis.Step(p, r, at, cost, true).1, Memory.Step(p, m, at * MS, cost).1)
  {
    if 0 < cost <= p.limit {
      var sp := Redis.ScriptPolicy(p);
      WholeWindow(p);
      var level := Redis.Refill(sp, r, at);
      assert cost * p.window == (cost * sp.window) * MS;
      ReportsAgree(p, level, at);
      ReportsAgree(p, level - cost * sp.window, at);
      RoundsAlike(p.limit, cost * sp.window - level, at);
      assert cost * p.window - level * MS == (cost * sp.window - level) * MS;
      assert level * MS - cost * p.window == (level - cost * sp.window) * MS;
    }
  }

  lemma ScaledSpend(cap: int, level: int, limit: int, price: int, at: int, t: int)
    ensures Min(cap * MS, level * MS - price * MS + limit * (t * MS - at * MS))
            == Min(cap, level - price + limit * (t - at)) * MS
  {
    assert limit * (t * MS - at * MS) == (limit * (t - at)) * MS;
  }

  /** ... and hold the same tokens again at any later millisecond. */
  lemma StepMirrorsAt(p: Policy, r: Option<Redis.Bucket>, m: Option<Memory.Bucket>, at: int, cost: int, t: int)
    requires ValidPolicy(p) && p.window % MS == 0 && at <= t
    requires Redis.Settled(Redis.ScriptPolicy(p), r, at) && Memory.Settled(p, m, at * MS)
    requires MirrorsAt(p, r, m, at) && MirrorsAt(p, r, m, t)
    requires Allowed(Redis.Step(p, r, at, cost, true).1) == Allowed(Memory.Step(p, m, at * MS, cost).1)
    ensures MirrorsAt(p, Redis.Step(p, r, at, cost, true).0, Memory.Step(p, m, at * MS, cost).0, t)
  {
    hide Redis.Step, Memory.Step, Redis.Refill, Memory.LevelAt, CeilDiv;
    var sp := Redis.ScriptPolicy(p);
    WholeWindow(p);
    Redis.ActLevel(p, r, Redis.Check(at, cost, true), t);
    Memory.StepLevel(p, m, at * MS, cost, t * MS);
    assert cost * p.window == (cost * sp.window) * MS;
    ScaledSpend(Cap(sp), Redis.Refill(sp, r, at), p.limit, cost * sp.window, at, t);
  }

  lemma StepMirrors(p: Policy, r: Option<Redis.Bucket>, m: Option<Memory.Bucket>, at: int, cost: int)
    requires ValidPolicy(p) && p.window % MS == 0
    requires Redis.Settled(Redis.ScriptPolicy(p), r, at) && Memory.Settled(p, m, at * MS)
    requires Mirrors(p, r, m, at)
    ensures Mirrors(p, Redis.Step(p, r, at, cost, true).0, Memory.Step(p, m, at * MS, cost).0, at)
    ensures Agree(Redis.Step(p, r, at, cost, true).1, Memory.Step(p, m, at * MS, cost).1)
  {
    var ro, mo := Redis.Step(p, r, at, cost, true), Memory.Step(p, m, at * MS, cost);
    assert MirrorsAt(p, r, m, at);
    StepsAgree(p, r, m, at, cost);
    assert Allowed(ro.1) == Allowed(mo.1);
    forall t | at <= t ensures MirrorsAt(p, ro.0, mo.0, t) {
      assert MirrorsAt(p, r, m, t);
      StepMirrorsAt(p, r, m, at, cost, t);
    }
  }

  lemma {:induction false} RequestsUpTo(acts: seq<Redis.Action>, t: int)
    requires Redis.ActionsUpTo(acts, t)
    ensures UpTo(Requests(acts), t * MS)
  {
    if acts != [] {
      RequestsUpTo(acts[..|acts| - 1], t);
    }
  }

  /**
   Refinement. For a window of whole milliseconds and checks at whole milliseconds, none
   refused for the backlog, the Redis bucket gives every check the answer the in-memory
   bucket gives, whenever Redis removed the expired key.
   */
  lemma {:induction false} RedisRefinesMemory(p: Policy, acts: seq<Redis.Action>, now: int)
    requires ValidPolicy(p) && p.window % MS == 0
    requires Redis.OrderedActions(acts) && Redis.ActionsUpTo(acts, now)
    requires forall i :: 0 <= i < |acts| && acts[i].Check? ==> acts[i].room
    ensures AllAgree(Answers(Redis.Run(p, acts).outcomes), Memory.Run(p, Requests(acts)).outcomes)
    ensures Mirrors(p, Redis.Run(p, acts).bucket, Memory.Run(p, Requests(acts)).bucket, now)
  {
    if acts == [] {
      WholeWindow(p);
      forall t | now <= t ensures MirrorsAt(p, None, None, t) {
      }
    } else {
      var n := |acts| - 1;
      RedisRefinesMemory(p, acts[..n], acts[n].at);
      assert acts == acts[..n] + [acts[n]];
      ActRefines(p, acts[..n], acts[n]);
    }
  }

  lemma {:induction false} ActRefines(p: Policy, h: seq<Redis.Action>, a: Redis.Action)
    requires ValidPolicy(p) && p.window % MS == 0
    requires Redis.ActionsUpTo(h, a.at) && (a.Check? ==> a.room)
    requires AllAgree(Answers(Redis.Run(p, h).outcomes), Memory.Run(p, Requests(h)).outcomes)
    requires Mirrors(p, Redis.Run(p, h).bucket, Memory.Run(p, Requests(h)).bucket, a.at)
    ensures AllAgree(Answers(Redis.Run(p, h + [a]).outcomes), Memory.Run(p, Requests(h + [a])).outcomes)
    ensures Mirrors(p, Redis.Run(p, h + [a]).bucket, Memory.Run(p, Requests(h + [a])).bucket, a.at)
  {
    hide Redis.Step, Memory.Step, MirrorsAt, Redis.Run, Memory.Run;
    var r, m := Redis.Run(p, h), Memory.Run(p, Requests(h));
    Redis.RunInvariant(p, h, a.at);
    Redis.RunAppend(p, h, a);
    AnswersAppend(r.outcomes, Redis.Act(p, r.bucket, a).1);
    assert (h + [a])[..|h|] == h;
    if a.Check? {
      RequestsUpTo(h, a.at);
      Memory.RunInvariant(p, Requests(h), a.at * MS);
      Memory.RunAppend(p, Requests(h), Charge(a.at * MS, a.cost));
      StepMirrors(p, r.bucket, m.bucket, a.at, a.cost);
    } else {
      assert Requests(h + [a]) == Requests(h);
      ExpiryMirrors(p, r.bucket, m.bucket, a.at);
    }
  }

  lemma {:induction false} AnswersAppend(outcomes: seq<Option<Outcome>>, o: Option<Outcome>)
    ensures Answers(outcomes + [o]) == Answers(outcomes) + (if o.Some? then [o.value] else [])
  {
    assert (outcomes + [o])[..|outcomes|] == outcomes;
  }

  lemma ExpiryMirrors(p: Policy, r: Option<Redis.Bucket>, m: Option<Memory.Bucket>, at: int)
    requires ValidPolicy(p) && Redis.WellFormed(Redis.ScriptPolicy(p), r) && Mirrors(p, r, m, at)
    ensures Mirrors(p, Redis.Removed(r, at), m, at)
  {
    Redis.ScriptPolicyValid(p);
    forall t | at <= t ensures MirrorsAt(p, Redis.Removed(r, at), m, t) {
      assert MirrorsAt(p, r, m, t);
      Redis.ExpiredIsFull(Redis.ScriptPolicy(p), r, at, t);
    }
  }

  // ---- Windows that are not whole milliseconds ----

  /** Charges timed in milliseconds, as the in-memory limiter would time them. */
  function Nanoseconds(h: seq<Charge>): seq<Charge> {
    seq(|h|, i requires 0 <= i < |h| => Charge(h[i].at * MS, h[i].cost))
  }

  /** The in-memory bucket holds at least as many tokens, at every millisecond from `now` on. */
  ghost predicate Ahead(p: Policy, r: Option<Redis.Bucket>, m: Option<Memory.Bucket>, now: int) {
    forall t :: now <= t ==> AheadAt(p, r, m, t)
  }

  predicate AheadAt(p: Policy, r: Option<Redis.Bucket>, m: Option<Memory.Bucket>, t: int) {
    var sp := Redis.ScriptPolicy(p);
    Redis.Refill(sp, r, t) * p.window <= Memory.LevelAt(p, m, t * MS) * sp.window
  }

  /** Rounding the window up only slows the refill, so spending alike keeps the order. */
  lemma SpendKeepsAhead(limit: int, w: int, sw: int, r: int, m: int, cost: int, dt: int)
    requires limit > 0 && w > 0 && sw > 0 && w <= sw * MS && 0 <= dt
    requires r * w <= m * sw
    ensures Min(limit * sw, r - cost * sw + limit * dt) * w <= Min(limit * w, m - cost * w + limit * (dt * MS)) * sw
  {
    var slow, fast := r - cost * sw + limit * dt, m - cost * w + limit * (dt * MS);
    MulMonotone(0, dt, limit);
    MulMonotone(w, sw * MS, limit * dt);
    SpreadSlow(limit, w, sw, r, cost, dt);
    SpreadFast(limit, w, sw, m, cost, dt);
    MulMonotone(Min(limit * sw, slow), slow, w);
    MulMonotone(Min(limit * sw, slow), limit * sw, w);
    assert (limit * sw) * w == (limit * w) * sw;
  }

  lemma SpreadSlow(limit: int, w: int, sw: int, r: int, cost: int, dt: int)
    ensures (r - cost * sw + limit * dt) * w == r * w - cost * sw * w + (limit * dt) * w
  {
  }

  lemma SpreadFast(limit: int, w: int, sw: int, m: int, cost: int, dt: int)
    ensures (m - cost * w + limit * (dt * MS)) * sw == m * sw - cost * sw * w + (limit * dt) * (sw * MS)
  {
    assert limit * (dt * MS) * sw == (limit * dt) * (sw * MS);
    assert cost * w * sw == cost * sw * w;
  }

  lemma Covers(w: int, sw: int, slow: int, fast: int, cost: int)
    requires w > 0 && sw > 0 && slow * w <= fast * sw && cost * sw <= slow
    ensures cost * w <= fast
  {
    MulMonotone(cost * sw, slow, w);
    assert cost * sw * w == (cost * w) * sw;
    if fast < cost * w {
      MulMonotone(fast + 1, cost * w, sw);
    }
  }

  /** What Redis can pay, the in-memory bucket that is ahead of it can pay. */
  lemma AheadPays(p: Policy, r: Option<Redis.Bucket>, m: Option<Memory.Bucket>, a: Redis.Action)
    requires ValidPolicy(p) && AheadAt(p, r, m, a.at) && Redis.Spends(p, r, a)
    ensures Allowed(Memory.Step(p, m, a.at * MS, a.cost).1)
  {
    hide Redis.Refill, Memory.Refilled, CeilDiv;
    var sp := Redis.ScriptPolicy(p);
    Redis.ScriptPolicyValid(p);
    Covers(p.window, sp.window, Redis.Refill(sp, r, a.at), Memory.LevelAt(p, m, a.at * MS), a.cost);
  }

  lemma SpendAhead(p: Policy, r: Option<Redis.Bucket>, m: Option<Memory.Bucket>, a: Redis.Action)
    requires ValidPolicy(p) && Redis.Spends(p, r, a) && Ahead(p, r, m, a.at)
    requires Redis.Settled(Redis.ScriptPolicy(p), r, a.at) && Memory.Settled(p, m, a.at * MS)
    ensures Allowed(Memory.Step(p, m, a.at * MS, a.cost).1)
    ensures Ahead(p, Redis.Act(p, r, a).0, Memory.Step(p, m, a.at * MS, a.cost).0, a.at)
  {
    hide Memory.Step, Redis.Act, Redis.Refill, Memory.LevelAt;
    var sp := Redis.ScriptPolicy(p);
    var slow, fast := Redis.Refill(sp, r, a.at), Memory.LevelAt(p, m, a.at * MS);
    Redis.ScriptPolicyValid(p);
    CeilDivBounds(p.window, MS);
    assert AheadAt(p, r, m, a.at);
    AheadPays(p, r, m, a);
    forall t | a.at <= t ensures AheadAt(p, Redis.Act(p, r, a).0, Memory.Step(p, m, a.at * MS, a.cost).0, t) {
      Redis.ActLevel(p, r, a, t);
      Memory.StepLevel(p, m, a.at * MS, a.cost, t * MS);
      SpendKeepsAhead(p.limit, p.window, sp.window, slow, fast, a.cost, t - a.at);
      assert t * MS - a.at * MS == (t - a.at) * MS;
    }
  }

  lemma IdleAhead(p: Policy, r: Option<Redis.Bucket>, m: Option<Memory.Bucket>, a: Redis.Action)
    requires ValidPolicy(p) && !Redis.Spends(p, r, a) && Ahead(p, r, m, a.at)
    requires Redis.Settled(Redis.ScriptPolicy(p), r, a.at)
    ensures Ahead(p, Redis.Act(p, r, a).0, m, a.at)
  {
    hide Redis.Act, Redis.Refill, Memory.LevelAt;
    forall t | a.at <= t ensures AheadAt(p, Redis.Act(p, r, a).0, m, t) {
      assert AheadAt(p, r, m, t);
      Redis.ActLevel(p, r, a, t);
    }
  }

  /** The approvals of a Redis run, as requests to the in-memory limiter. */
  function Approvals(p: Policy, acts: seq<Redis.Action>): seq<Charge>
    requires ValidPolicy(p)
  {
    Nanoseconds(Approved(Redis.Run(p, acts).charges))
  }

  lemma {:induction false} ApprovalsAppend(p: Policy, h: seq<Redis.Action>, a: Redis.Action)
    requires ValidPolicy(p)
    ensures Approvals(p, h + [a])
            == Approvals(p, h)
               + (if Redis.Spends(p, Redis.Run(p, h).bucket, a) then [Charge(a.at * MS, a.cost)] else [])
  {
    hide Redis.Run, Redis.Settle, Redis.Respond;
    Redis.RunAppend(p, h, a);
    ApprovedAppend(Redis.Run(p, h).charges, Redis.Charge1(a, Redis.Act(p, Redis.Run(p, h).bucket, a).1));
  }

  lemma {:induction false} ApprovalsUpTo(p: Policy, acts: seq<Redis.Action>, t: int)
    requires ValidPolicy(p) && Redis.ActionsUpTo(acts, t)
    ensures UpTo(Approvals(p, acts), t * MS)
  {
    if acts != [] {
      var n := |acts| - 1;
      ApprovalsUpTo(p, acts[..n], t);
      ApprovalsAppend(p, acts[..n], acts[n]);
      assert acts[..n] + [acts[n]] == acts;
    } else {
      assert Redis.Run(p, acts).charges == [];
    }
  }

  /**
   For any window, whole milliseconds or not: whatever a Redis run approved, with any
   denials, backlog refusals and expiries in between, the in-memory bucket approves
   throughout. Rounding the window up never grants more.
   */
  lemma {:induction false} RedisGrantsNoMore(p: Policy, acts: seq<Redis.Action>, now: int)
    requires ValidPolicy(p) && Redis.OrderedActions(acts) && Redis.ActionsUpTo(acts, now)
    ensures Memory.Run(p, Approvals(p, acts)).charges == Approvals(p, acts)
    ensures Ahead(p, Redis.Run(p, acts).bucket, Memory.Run(p, Approvals(p, acts)).bucket, now)
  {
    hide Memory.Step, Redis.Act, Redis.Spends, AheadAt;
    if acts == [] {
      assert Redis.Run(p, acts) == Redis.Trace(None, [], []);
      assert Approvals(p, acts) == [];
      Memory.EmptyRun(p);
      forall t | now <= t ensures AheadAt(p, None, None, t) {
        BothFull(p, t);
      }
    } else {
      var n := |acts| - 1;
      RedisGrantsNoMore(p, acts[..n], acts[n].at);
      GrantNoMore(p, acts[..n], acts[n]);
      assert acts[..n] + [acts[n]] == acts;
    }
  }

  lemma BothFull(p: Policy, t: int)
    ensures AheadAt(p, None, None, t)
  {
    var sp := Redis.ScriptPolicy(p);
    assert (p.limit * sp.window) * p.window == (p.limit * p.window) * sp.window;
  }

  lemma {:induction false} GrantNoMore(p: Policy, h: seq<Redis.Action>, a: Redis.Action)
    requires ValidPolicy(p) && Redis.ActionsUpTo(h, a.at)
    requires Memory.Run(p, Approvals(p, h)).charges == Approvals(p, h)
    requires Ahead(p, Redis.Run(p, h).bucket, Memory.Run(p, Approvals(p, h)).bucket, a.at)
    ensures Memory.Run(p, Approvals(p, h + [a])).charges == Approvals(p, h + [a])
    ensures Ahead(p, Redis.Run(p, h + [a]).bucket, Memory.Run(p, Approvals(p, h + [a])).bucket, a.at)
  {
    hide Memory.Step, Redis.Act, Redis.Spends, AheadAt, Redis.Run, Memory.Run, Approvals;
    var r, m := Redis.Run(p, h).bucket, Memory.Run(p, Approvals(p, h)).bucket;
    Redis.RunInvariant(p, h, a.at);
    Redis.RunAppend(p, h, a);
    ApprovalsAppend(p, h, a);
    if Redis.Spends(p, r, a) {
      assert a.Check? by {
        SpendingIsChecking(p, r, a);
      }
      var c := Charge(a.at * MS, a.cost);
      ApprovalsUpTo(p, h, a.at);
      Memory.RunInvariant(p, Approvals(p, h), a.at * MS);
      SpendAhead(p, r, m, a);
      Memory.RunAppend(p, Approvals(p, h), c);
      AllowedCharge(p, Approvals(p, h), c);
    } else {
      assert Approvals(p, h + [a]) == Approvals(p, h);
      IdleAhead(p, r, m, a);
    }
  }

  lemma SpendingIsChecking(p: Policy, r: Option<Redis.Bucket>, a: Redis.Action)
    requires ValidPolicy(p) && Redis.Spends(p, r, a)
    ensures a.Check?
  {
  }

  lemma {:induction false} AllowedCharge(p: Policy, h: seq<Charge>, c: Charge)
    requires ValidPolicy(p) && Allowed(Memory.Step(p, Memory.Run(p, h).bucket, c.at, c.cost).1)
    ensures Memory.Run(p, h + [c]).charges == Memory.Run(p, h).charges + [c]
  {
    assert (h + [c])[..|h|] == h;
  }

  /** ... so a run Redis approves throughout is approved throughout in memory. */
  lemma {:induction false} ApprovedThroughout(p: Policy, acts: seq<Redis.Action>, now: int)
    requires ValidPolicy(p) && Redis.OrderedActions(acts) && Redis.ActionsUpTo(acts, now)
    requires forall i :: 0 <= i < |acts| && acts[i].Check? ==> Redis.Spent1(Redis.Run(p, acts).outcomes[i])
    ensures forall i :: 0 <= i < |Requests(acts)| ==> Allowed(Memory.Run(p, Requests(acts)).outcomes[i])
  {
    hide Redis.Run, Memory.Run;
    RequestsAreApprovals(p, acts);
    RedisGrantsNoMore(p, acts, now);
    var tr := Memory.Run(p, Requests(acts));
    forall i | 0 <= i < |Requests(acts)| ensures Allowed(tr.outcomes[i]) {
      assert tr.charges[i] == Charge(Requests(acts)[i].at, Charged(tr.outcomes[i], Requests(acts)[i].cost));
      assert Requests(acts)[i].cost != 0;
    }
  }

  lemma {:induction false} RequestsAreApprovals(p: Policy, acts: seq<Redis.Action>)
    requires ValidPolicy(p)
    requires forall i :: 0 <= i < |acts| && acts[i].Check? ==> Redis.Spent1(Redis.Run(p, acts).outcomes[i])
    ensures Requests(acts) == Approvals(p, acts)
    ensures forall i :: 0 <= i < |Requests(acts)| ==> Requests(acts)[i].cost != 0
  {
    hide Redis.Run, Approvals;
    if acts == [] {
      NoApprovals(p);
    } else {
      var n := |acts| - 1;
      Redis.RunPrefix(p, acts, n);
      forall i | 0 <= i < n && acts[..n][i].Check? ensures Redis.Spent1(Redis.Run(p, acts[..n]).outcomes[i]) {
        assert acts[i].Check?;
        assert Redis.Run(p, acts[..n]).outcomes[i] == Redis.Run(p, acts).outcomes[i];
      }
      RequestsAreApprovals(p, acts[..n]);
      Redis.OutcomeAt(p, acts, n);
      ApprovalsAppend(p, acts[..n], acts[n]);
      assert acts[..n] + [acts[n]] == acts;
    }
  }

  lemma NoApprovals(p: Policy)
    requires ValidPolicy(p)
    ensures Approvals(p, []) == []
  {
    assert Redis.Run(p, []).charges == [];
  }

  /** The sum of the forward steps of the clock over a run. */
  function ForwardSteps(acts: seq<Redis.Action>): int {
    if |acts| <= 1 then 0
    else
      var n := |acts| - 1;
      ForwardSteps(acts[..n]) + Max(0, acts[n].at - acts[n - 1].at)
  }

  /** What was spent and what is stored, against a full bucket and `forward` of refill. */
  predicate WithinCredit(sp: Policy, stored: Option<Redis.Bucket>, spent: int, forward: int, clock: int) {
    var held := match stored
      case None => Cap(sp)
      case Some(b) => b.level + sp.limit * Max(0, clock - b.lastRefillMS);
    held + spent * sp.window <= Cap(sp) + sp.limit * forward
  }

  lemma ClockWithinCredit(sp: Policy, stored: Option<Redis.Bucket>, spent: int, forward: int, clock: int, at: int)
    requires ValidPolicy(sp) && WithinCredit(sp, stored, spent, forward, clock)
    ensures WithinCredit(sp, stored, spent, forward + Max(0, at - clock), at)
  {
    assert sp.limit * (forward + Max(0, at - clock)) == sp.limit * forward + sp.limit * Max(0, at - clock);
    MulMonotone(0, Max(0, at - clock), sp.limit);
    if stored.Some? {
      var last := stored.value.lastRefillMS;
      MulMonotone(Max(0, at - last), Max(0, clock - last) + Max(0, at - clock), sp.limit);
      assert sp.limit * (Max(0, clock - last) + Max(0, at - clock))
             == sp.limit * Max(0, clock - last) + sp.limit * Max(0, at - clock);
    }
  }

  lemma SettleWithinCredit(sp: Policy, stored: Option<Redis.Bucket>, spent: int, forward: int, now: int, cost: int, room: bool)
    requires WithinCredit(sp, stored, spent, forward, now)
    ensures var paid := room && cost * sp.window <= Redis.Refill(sp, stored, now);
            WithinCredit(sp, Redis.Settle(sp, stored, now, cost, room), spent + (if paid then cost else 0), forward, now)
  {
    DistributeCost(spent, cost, sp.window);
    assert sp.limit * Max(0, now - now) == 0;
  }

  lemma ExpireWithinCredit(sp: Policy, stored: Option<Redis.Bucket>, spent: int, forward: int, now: int)
    requires ValidPolicy(sp) && Redis.WellFormed(sp, stored) && WithinCredit(sp, stored, spent, forward, now)
    ensures WithinCredit(sp, Redis.Removed(stored, now), spent, forward, now)
  {
    if Redis.Removed(stored, now) != stored {
      MulMonotone(2 * sp.window, now - stored.value.lastRefillMS, sp.limit);
      MulMonotone(0, sp.window, sp.limit);
      assert sp.limit * (2 * sp.window) == 2 * Cap(sp);
    }
  }

  lemma ActWithinCredit(p: Policy, stored: Option<Redis.Bucket>, spent: int, forward: int, a: Redis.Action)
    requires ValidPolicy(p)
    requires var sp := Redis.ScriptPolicy(p);
             Redis.WellFormed(sp, stored) && WithinCredit(sp, stored, spent, forward, a.at)
    ensures var (b, o) := Redis.Act(p, stored, a);
            WithinCredit(Redis.ScriptPolicy(p), b, spent + Redis.Charge1(a, o).cost, forward, a.at)
  {
    hide WithinCredit, Redis.Settle, Redis.Refill, CeilDiv;
    var sp := Redis.ScriptPolicy(p);
    Redis.ScriptPolicyValid(p);
    match a
    case Check(at, cost, room) => SettleWithinCredit(sp, stored, spent, forward, at, cost, room);
    case Expire(at) => ExpireWithinCredit(sp, stored, spent, forward, at);
  }

  lemma {:induction false} RunWithinCredit(p: Policy, acts: seq<Redis.Action>)
    requires ValidPolicy(p) && acts != []
    ensures var tr := Redis.Run(p, acts);
            WithinCredit(Redis.ScriptPolicy(p), tr.bucket, Spent(tr.charges, 0), ForwardSteps(acts), acts[|acts| - 1].at)
  {
    var n := |acts| - 1;
    var a, sp := acts[n], Redis.ScriptPolicy(p);
    var before := Redis.Run(p, acts[..n]);
    Redis.ScriptPolicyValid(p);
    Redis.RunInvariant(p, acts[..n], 0);
    assert Redis.Run(p, acts).charges[..n] == before.charges;
    assert Spent(Redis.Run(p, acts).charges, 0) == Spent(before.charges, 0) + Redis.Run(p, acts).charges[n].cost;
    if n > 0 {
      RunWithinCredit(p, acts[..n]);
      ClockWithinCredit(sp, before.bucket, Spent(before.charges, 0), ForwardSteps(acts[..n]), acts[n - 1].at, a.at);
    }
    ActWithinCredit(p, before.bucket, Spent(before.charges, 0), ForwardSteps(acts), a);
  }

  lemma CreditBound(sp: Policy, stored: Option<Redis.Bucket>, spent: int, forward: int, clock: int)
    requires ValidPolicy(sp) && Redis.WellFormed(sp, stored) && WithinCredit(sp, stored, spent, forward, clock)
    ensures spent * sp.window <= Cap(sp) + sp.limit * forward
  {
    MulMonotone(0, sp.window, sp.limit);
    if stored.Some? {
      MulMonotone(0, Max(0, clock - stored.value.lastRefillMS), sp.limit);
    }
  }

  /**
   Credit under any clock: a Redis bucket moves its refill time back with the clock, so
   what it can ever approve is the limit plus the refill over every forward step.
   */
  lemma {:induction false} CreditUnderAnyClock(p: Policy, acts: seq<Redis.Action>)
    requires ValidPolicy(p) && acts != []
    ensures var w := Redis.ScriptPolicy(p).window;
            Spent(Redis.Run(p, acts).charges, 0) * w <= p.limit * w + p.limit * ForwardSteps(acts)
  {
    var tr, sp := Redis.Run(p, acts), Redis.ScriptPolicy(p);
    Redis.ScriptPolicyValid(p);
    Redis.RunInvariant(p, acts, 0);
    RunWithinCredit(p, acts);
    CreditBound(sp, tr.bucket, Spent(tr.charges, 0), ForwardSteps(acts), acts[|acts| - 1].at);
  }
}
