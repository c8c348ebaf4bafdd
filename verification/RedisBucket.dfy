/**
 The Redis token bucket on one key (internal/ratelimiter/redis-token-bucket.go): the Lua
 script's arithmetic, the checks `Allow` makes around it, and key expiry.

 The script works in milliseconds with a window rounded up to whole milliseconds; levels
 are scaled by that window. Redis may remove a key at any moment from its expiry deadline
 on, so removal is an event of its own in a run.
 */
module RedisBucket {
  import opened Arithmetic
  import opened Limits
  import opened History
  import TokenBucket

  datatype Bucket = Bucket(level: int, lastRefillMS: int, expireAtMS: int)

  datatype Reply = Reply(allowed: bool, remaining: int, resetAtMS: int, retryAfterMS: int, backlogFull: bool)

  /** The policy as the script sees it: the window in milliseconds, rounded up. */
  function ScriptPolicy(p: Policy): Policy {
    Policy(p.limit, CeilDiv(p.window, MS))
  }

  lemma ScriptPolicyValid(p: Policy)
    requires ValidPolicy(p)
    ensures ValidPolicy(ScriptPolicy(p))
    ensures ScriptPolicy(p).limit == p.limit && p.window <= ScriptPolicy(p).window * MS < p.window + MS
  {
    CeilDivLeast(p.window, MS, 0);
    CeilDivBounds(p.window, MS);
  }

  /** The balance the script computes before it decides. */
  function Refill(sp: Policy, stored: Option<Bucket>, now: int): int {
    match stored
    case None => Cap(sp)
    case Some(b) => Min(Cap(sp), b.level + sp.limit * Max(0, now - b.lastRefillMS))
  }

  function Write(sp: Policy, level: int, now: int): Bucket {
    Bucket(level, now, now + 2 * sp.window)
  }

  /** What the script leaves in the bucket key: nothing changes when the backlog is full. */
  function Settle(sp: Policy, stored: Option<Bucket>, now: int, cost: int, room: bool): Option<Bucket> {
    var level := Refill(sp, stored, now);
    if cost * sp.window <= level then
      if room then Some(Write(sp, level - cost * sp.window, now)) else stored
    else Some(Write(sp, level, now))
  }

  function Respond(sp: Policy, stored: Option<Bucket>, now: int, cost: int, room: bool): Reply
    requires ValidPolicy(sp)
  {
    var level := Refill(sp, stored, now);
    var covered := cost * sp.window <= level;
    var left := if covered && room then level - cost * sp.window else level;
    Reply(
      covered && room,
      left / sp.window,
      now + CeilDiv(Cap(sp) - left, sp.limit),
      if covered then 0 else Max(1, CeilDiv(cost * sp.window - level, sp.limit)),
      covered && !room)
  }

  /** `Allow` on one key, given the script's clock and whether the stream has room. */
  function Step(p: Policy, stored: Option<Bucket>, now: int, cost: int, room: bool): (Option<Bucket>, Outcome)
    requires ValidPolicy(p)
  {
    if cost <= 0 then (stored, Refused(InvalidCost))
    else if cost > p.limit then (stored, Refused(CostExceedsLimit))
    else
      ScriptPolicyValid(p);
      var sp := ScriptPolicy(p);
      var reply := Respond(sp, stored, now, cost, room);
      (Settle(sp, stored, now, cost, room),
       if reply.backlogFull then Refused(EventBacklogFull)
       else Decided(Decision(reply.allowed, p.limit, reply.remaining, reply.resetAtMS * MS, reply.retryAfterMS)))
  }

  /** What can happen to one bucket key: a check, or removal once its deadline has come. */
  datatype Action =
    | Check(at: int, cost: int, room: bool)
    | Expire(at: int)

  function Removed(stored: Option<Bucket>, at: int): Option<Bucket> {
    if stored.Some? && stored.value.expireAtMS <= at then None else stored
  }

  predicate OrderedActions(acts: seq<Action>) {
    forall i, j :: 0 <= i <= j < |acts| ==> acts[i].at <= acts[j].at
  }

  predicate ActionsUpTo(acts: seq<Action>, t: int) {
    forall i :: 0 <= i < |acts| ==> acts[i].at <= t
  }

  /** The bucket, the answer to each action (removals answer nothing), and the charges. */
  datatype Trace = Trace(bucket: Option<Bucket>, outcomes: seq<Option<Outcome>>, charges: seq<Charge>)

  function Charge1(a: Action, o: Option<Outcome>): Charge {
    Charge(a.at, if a.Check? && o.Some? then Charged(o.value, a.cost) else 0)
  }

  function Act(p: Policy, stored: Option<Bucket>, a: Action): (Option<Bucket>, Option<Outcome>)
    requires ValidPolicy(p)
  {
    match a
    case Check(at, cost, room) =>
      var (b, o) := Step(p, stored, at, cost, room);
      (b, Some(o))
    case Expire(at) => (Removed(stored, at), None)
  }

  function Run(p: Policy, acts: seq<Action>): (tr: Trace)
    requires ValidPolicy(p)
    ensures |tr.outcomes| == |tr.charges| == |acts|
    ensures forall i :: 0 <= i < |acts| ==> tr.charges[i] == Charge1(acts[i], tr.outcomes[i])
  {
    if acts == [] then Trace(None, [], [])
    else
      var a := acts[|acts| - 1];
      var before := Run(p, acts[..|acts| - 1]);
      var (b, o) := Act(p, before.bucket, a);
      Trace(b, before.outcomes + [o], before.charges + [Charge1(a, o)])
  }

  lemma {:induction false} RunPrefix(p: Policy, acts: seq<Action>, n: nat)
    requires ValidPolicy(p) && n <= |acts|
    ensures Run(p, acts[..n]).outcomes == Run(p, acts).outcomes[..n]
    ensures Run(p, acts[..n]).charges == Run(p, acts).charges[..n]
  {
    if n == |acts| {
      assert acts[..n] == acts;
    } else {
      RunPrefix(p, acts[..|acts| - 1], n);
      assert acts[..|acts| - 1][..n] == acts[..n];
    }
  }

  lemma {:induction false} RunAppend(p: Policy, h: seq<Action>, a: Action)
    requires ValidPolicy(p)
    ensures var before, after := Run(p, h), Run(p, h + [a]);
            && after.bucket == Act(p, before.bucket, a).0
            && after.outcomes == before.outcomes + [Act(p, before.bucket, a).1]
            && after.charges == before.charges + [Charge1(a, Act(p, before.bucket, a).1)]
  {
    assert (h + [a])[..|h|] == h;
  }

  /** A stored bucket: in range, with a deadline two windows after its last write. */
  predicate WellFormed(sp: Policy, stored: Option<Bucket>) {
    stored.Some? ==>
      && 0 <= stored.value.level <= Cap(sp)
      && stored.value.expireAtMS == stored.value.lastRefillMS + 2 * sp.window
  }

  predicate Settled(sp: Policy, stored: Option<Bucket>, now: int) {
    WellFormed(sp, stored) && (stored.Some? ==> stored.value.lastRefillMS <= now)
  }

  lemma RefillInRange(sp: Policy, stored: Option<Bucket>, now: int)
    requires ValidPolicy(sp) && WellFormed(sp, stored)
    ensures 0 <= Refill(sp, stored, now) <= Cap(sp)
  {
    MulMonotone(0, sp.window, sp.limit);
    if stored.Some? {
      MulMonotone(0, Max(0, now - stored.value.lastRefillMS), sp.limit);
    }
  }

  lemma SettleWellFormed(sp: Policy, stored: Option<Bucket>, now: int, cost: int, room: bool)
    requires ValidPolicy(sp) && WellFormed(sp, stored) && 0 < cost
    ensures WellFormed(sp, Settle(sp, stored, now, cost, room))
  {
    RefillInRange(sp, stored, now);
    MulMonotone(0, cost, sp.window);
  }

  lemma {:induction false} RunInvariant(p: Policy, acts: seq<Action>, t: int)
    requires ValidPolicy(p)
    ensures WellFormed(ScriptPolicy(p), Run(p, acts).bucket)
    ensures ActionsUpTo(acts, t) ==> Settled(ScriptPolicy(p), Run(p, acts).bucket, t)
  {
    if acts != [] {
      var n := |acts| - 1;
      RunInvariant(p, acts[..n], t);
      ScriptPolicyValid(p);
      if acts[n].Check? && 0 < acts[n].cost {
        SettleWellFormed(ScriptPolicy(p), Run(p, acts[..n]).bucket, acts[n].at, acts[n].cost, acts[n].room);
      }
    }
  }

  /** A key whose deadline has passed was already full: removing it changes no balance. */
  lemma ExpiredIsFull(sp: Policy, stored: Option<Bucket>, at: int, t: int)
    requires ValidPolicy(sp) && WellFormed(sp, stored) && at <= t
    ensures Refill(sp, Removed(stored, at), t) == Refill(sp, stored, t)
  {
    if Removed(stored, at) != stored {
      var b := stored.value;
      MulMonotone(2 * sp.window, t - b.lastRefillMS, sp.limit);
      MulMonotone(0, sp.window, sp.limit);
      assert sp.limit * (2 * sp.window) == 2 * Cap(sp);
    }
  }

  lemma RewriteInvisible(sp: Policy, stored: Option<Bucket>, at: int, t: int)
    requires ValidPolicy(sp) && Settled(sp, stored, at) && at <= t
    ensures Refill(sp, Some(Write(sp, Refill(sp, stored, at), at)), t) == Refill(sp, stored, t)
  {
    if stored.None? {
      MulMonotone(0, t - at, sp.limit);
    } else {
      RefillComposes(Cap(sp), sp.limit, stored.value.level, at - stored.value.lastRefillMS, t - at);
    }
  }

  predicate Spends(p: Policy, stored: Option<Bucket>, a: Action)
    requires ValidPolicy(p)
  {
    a.Check? && Allowed(Step(p, stored, a.at, a.cost, a.room).1)
  }

  /** What one action does to the balance seen at any later time. */
  lemma ActLevel(p: Policy, stored: Option<Bucket>, a: Action, t: int)
    requires ValidPolicy(p) && Settled(ScriptPolicy(p), stored, a.at) && a.at <= t
    ensures var sp := ScriptPolicy(p);
            Refill(sp, Act(p, stored, a).0, t)
            == if Spends(p, stored, a)
               then Min(Cap(sp), Refill(sp, stored, a.at) - a.cost * sp.window + sp.limit * (t - a.at))
               else Refill(sp, stored, t)
  {
    ScriptPolicyValid(p);
    if a.Check? {
      RewriteInvisible(ScriptPolicy(p), stored, a.at, t);
    } else {
      ExpiredIsFull(ScriptPolicy(p), stored, a.at, t);
    }
  }

  lemma ChargeOf(p: Policy, stored: Option<Bucket>, a: Action)
    requires ValidPolicy(p)
    ensures Charge1(a, Act(p, stored, a).1) == Charge(a.at, if Spends(p, stored, a) then a.cost else 0)
  {
    hide Step;
  }

  lemma LevelAfter(p: Policy, h: seq<Charge>, c: Charge, t: int)
    ensures Level(p, h + [c], t) == Min(Cap(p), Level(p, h, c.at) - c.cost * p.window + p.limit * (t - c.at))
  {
    assert (h + [c])[..|h|] == h;
  }

  /** The expiring, rewritten key carries exactly the balance of its charges. */
  lemma {:induction false} BalanceIsHistory(p: Policy, acts: seq<Action>, t: int)
    requires ValidPolicy(p) && OrderedActions(acts) && ActionsUpTo(acts, t)
    ensures Refill(ScriptPolicy(p), Run(p, acts).bucket, t) == Level(ScriptPolicy(p), Run(p, acts).charges, t)
  {
    if acts != [] {
      hide Spends, Act, Refill, Level, Run;
      var n := |acts| - 1;
      var a, sp := acts[n], ScriptPolicy(p);
      var before := Run(p, acts[..n]);
      assert acts == acts[..n] + [a];
      ScriptPolicyValid(p);
      RunAppend(p, acts[..n], a);
      RunInvariant(p, acts[..n], a.at);
      ActLevel(p, before.bucket, a, t);
      ChargeOf(p, before.bucket, a);
      if Spends(p, before.bucket, a) {
        BalanceIsHistory(p, acts[..n], a.at);
        LevelAfter(sp, before.charges, Charge(a.at, a.cost), t);
      } else {
        BalanceIsHistory(p, acts[..n], t);
        IdleChargeInvisible(sp, before.charges, a.at, t);
      }
    }
  }

  lemma {:induction false} OutcomeAt(p: Policy, acts: seq<Action>, i: nat)
    requires ValidPolicy(p) && i < |acts|
    ensures Run(p, acts).outcomes[i] == Act(p, Run(p, acts[..i]).bucket, acts[i]).1
    ensures Run(p, acts).charges[..i] == Run(p, acts[..i]).charges
  {
    RunPrefix(p, acts, i);
    RunPrefix(p, acts, i + 1);
    assert acts[..i + 1][..i] == acts[..i];
    assert Run(p, acts).outcomes[i] == Run(p, acts[..i + 1]).outcomes[i];
  }

  lemma {:induction false} AllowedIffCovered(p: Policy, acts: seq<Action>, i: nat)
    requires ValidPolicy(p) && OrderedActions(acts) && i < |acts| && acts[i].Check?
    ensures var tr, sp := Run(p, acts), ScriptPolicy(p);
            && tr.outcomes[i].Some?
            && (Allowed(tr.outcomes[i].value) <==>
                && 0 < acts[i].cost <= p.limit
                && acts[i].room
                && acts[i].cost * sp.window <= Level(sp, tr.charges[..i], acts[i].at))
  {
    OutcomeAt(p, acts, i);
    BalanceIsHistory(p, acts[..i], acts[i].at);
  }

  /**
   The admission law on Redis: the same envelope as in memory, in milliseconds, and room
   in the event stream. It holds however often the key expired on the way.
   */
  lemma {:induction false} AdmissionLaw(p: Policy, acts: seq<Action>, i: nat)
    requires ValidPolicy(p) && OrderedActions(acts) && i < |acts| && acts[i].Check?
    requires 0 < acts[i].cost <= p.limit
    ensures var tr, w := Run(p, acts), ScriptPolicy(p).window;
            && tr.outcomes[i].Some?
            && (Allowed(tr.outcomes[i].value) <==>
                && acts[i].room
                && forall j :: 0 <= j < i ==>
                                 (Spent(tr.charges[..i], j) + acts[i].cost) * w
                                 <= p.limit * w + p.limit * (acts[i].at - acts[j].at))
  {
    hide Run, Level, Spent;
    AllowedIffCovered(p, acts, i);
    ScriptPolicyValid(p);
    var times := seq(|acts|, k requires 0 <= k < |acts| => Charge(acts[k].at, acts[i].cost));
    TokenBucket.FitsRequests(ScriptPolicy(p), times, Run(p, acts).charges[..i], i);
    assert forall j :: 0 <= j <= i ==> times[j].at == acts[j].at;
  }

  lemma {:induction false} RunIsBacked(p: Policy, acts: seq<Action>)
    requires ValidPolicy(p) && OrderedActions(acts)
    ensures Backed(ScriptPolicy(p), Run(p, acts).charges)
  {
    hide Step, Level, Removed;
    if acts != [] {
      var n := |acts| - 1;
      var before := Run(p, acts[..n]).charges;
      ScriptPolicyValid(p);
      RunIsBacked(p, acts[..n]);
      BalanceNonnegative(ScriptPolicy(p), before, acts[n].at);
      RunPrefix(p, acts, n);
      if acts[n].Check? {
        AllowedIffCovered(p, acts, n);
      }
      BackedExtend(ScriptPolicy(p), before, Run(p, acts).charges[n]);
      assert Run(p, acts).charges == before + [Run(p, acts).charges[n]];
    }
  }

  /** Two stored buckets that no action from `now` on can tell apart. */
  ghost predicate SameFrom(sp: Policy, a: Option<Bucket>, b: Option<Bucket>, now: int) {
    forall t :: now <= t ==> Refill(sp, a, t) == Refill(sp, b, t)
  }

  lemma SameTransitive(sp: Policy, a: Option<Bucket>, b: Option<Bucket>, c: Option<Bucket>, now: int)
    requires SameFrom(sp, a, b, now) && SameFrom(sp, b, c, now)
    ensures SameFrom(sp, a, c, now)
  {
  }

  lemma SameReflexive(sp: Policy, a: Option<Bucket>, now: int)
    ensures SameFrom(sp, a, a, now)
  {
  }

  lemma SameLater(sp: Policy, a: Option<Bucket>, b: Option<Bucket>, now: int, later: int)
    requires SameFrom(sp, a, b, now) && now <= later
    ensures SameFrom(sp, a, b, later)
  {
  }

  lemma ActKeepsSame(p: Policy, x: Option<Bucket>, y: Option<Bucket>, a: Action)
    requires ValidPolicy(p)
    requires var sp := ScriptPolicy(p); Settled(sp, x, a.at) && Settled(sp, y, a.at) && SameFrom(sp, x, y, a.at)
    ensures Act(p, x, a).1 == Act(p, y, a).1
    ensures SameFrom(ScriptPolicy(p), Act(p, x, a).0, Act(p, y, a).0, a.at)
  {
    var sp := ScriptPolicy(p);
    assert Refill(sp, x, a.at) == Refill(sp, y, a.at);
    forall t | a.at <= t ensures Refill(sp, Act(p, x, a).0, t) == Refill(sp, Act(p, y, a).0, t) {
      ActLevel(p, x, a, t);
      ActLevel(p, y, a, t);
    }
  }

  lemma RefusalKeepsSame(p: Policy, x: Option<Bucket>, a: Action)
    requires ValidPolicy(p) && Settled(ScriptPolicy(p), x, a.at)
    requires !Spends(p, x, a)
    ensures SameFrom(ScriptPolicy(p), Act(p, x, a).0, x, a.at)
  {
    forall t | a.at <= t ensures Refill(ScriptPolicy(p), Act(p, x, a).0, t) == Refill(ScriptPolicy(p), x, t) {
      ActLevel(p, x, a, t);
    }
  }

  lemma {:induction false} SelectUpTo(acts: seq<Action>, keep: seq<bool>, t: int)
    requires |keep| == |acts| && ActionsUpTo(acts, t)
    ensures ActionsUpTo(Select(acts, keep), t)
  {
    if acts != [] {
      SelectUpTo(acts[..|acts| - 1], keep[..|acts| - 1], t);
    }
  }

  predicate Spent1(o: Option<Outcome>) {
    o.Some? && Allowed(o.value)
  }

  /**
   Refusals are invisible: dropping denied checks, checks refused for a full backlog and
   expiries, in any combination, changes no other answer. A denial rewrites the balance
   and pushes the deadline back; a backlog refusal writes nothing.
   */
  lemma {:induction false} RefusalsInvisible(p: Policy, acts: seq<Action>, keep: seq<bool>, now: int)
    requires ValidPolicy(p) && OrderedActions(acts) && ActionsUpTo(acts, now) && |keep| == |acts|
    requires forall i :: 0 <= i < |acts| && !keep[i] ==> !Spent1(Run(p, acts).outcomes[i])
    ensures Run(p, Select(acts, keep)).outcomes == Select(Run(p, acts).outcomes, keep)
    ensures SameFrom(ScriptPolicy(p), Run(p, acts).bucket, Run(p, Select(acts, keep)).bucket, now)
  {
    hide Step, SameFrom;
    if acts == [] {
      SameReflexive(ScriptPolicy(p), None, now);
    }
    if acts != [] {
      var n := |acts| - 1;
      var a := acts[n];
      var dropped := Select(acts[..n], keep[..n]);
      RunPrefix(p, acts, n);
      RefusalsInvisible(p, acts[..n], keep[..n], a.at);
      SelectUpTo(acts[..n], keep[..n], a.at);
      RunInvariant(p, acts[..n], a.at);
      RunInvariant(p, dropped, a.at);
      if keep[n] {
        RunAppend(p, dropped, a);
        ActKeepsSame(p, Run(p, acts[..n]).bucket, Run(p, dropped).bucket, a);
      } else {
        assert Select(acts, keep) == dropped;
        RefusalKeepsSame(p, Run(p, acts[..n]).bucket, a);
        SameTransitive(ScriptPolicy(p), Run(p, acts).bucket, Run(p, acts[..n]).bucket, Run(p, dropped).bucket, a.at);
      }
      SameLater(ScriptPolicy(p), Run(p, acts).bucket, Run(p, Select(acts, keep)).bucket, a.at, now);
    }
  }

  /**
   Which answers there are: a cost that is not positive or above the limit is an error, a
   covered check without room is refused for the backlog, and none of these writes; any other
   check is decided, and rewrites the key with this time and a deadline two windows on.
   */
  lemma AnswerForm(p: Policy, stored: Option<Bucket>, now: int, cost: int, room: bool)
    requires ValidPolicy(p)
    ensures var sp, (b, o) := ScriptPolicy(p), Step(p, stored, now, cost, room);
            var covered := cost * sp.window <= Refill(sp, stored, now);
            && (cost <= 0 ==> o == Refused(InvalidCost))
            && (p.limit < cost ==> o == Refused(CostExceedsLimit))
            && (0 < cost <= p.limit && covered && !room ==> o == Refused(EventBacklogFull))
            && (0 < cost <= p.limit && !(covered && !room) ==>
                  && o.Decided? && o.decision.limit == p.limit && o.decision.allowed == covered
                  && (if covered then o.decision.retryAfterMS == 0 else o.decision.retryAfterMS >= 1)
                  && b.Some? && b.value.lastRefillMS == now && b.value.expireAtMS == now + 2 * sp.window)
            && (!o.Decided? ==> b == stored)
  {
    hide CeilDiv;
  }

  /** A clock behind the last write is a clock that stands still. */
  lemma StepBackIsStill(sp: Policy, b: Bucket, now: int)
    requires ValidPolicy(sp) && WellFormed(sp, Some(b)) && now <= b.lastRefillMS
    ensures Refill(sp, Some(b), now) == Refill(sp, Some(b), b.lastRefillMS) == b.level
  {
    assert sp.limit * 0 == 0;
  }

  /** `remaining` is exactly the largest cost a further check at the same instant may have. */
  lemma RemainingExact(p: Policy, stored: Option<Bucket>, now: int, cost: int, room: bool, next: int)
    requires ValidPolicy(p) && WellFormed(ScriptPolicy(p), stored) && 0 < next <= p.limit
    requires Step(p, stored, now, cost, room).1.Decided?
    ensures var (b, o) := Step(p, stored, now, cost, room);
            Allowed(Step(p, b, now, next, true).1) <==> next <= o.decision.remaining
  {
    var sp := ScriptPolicy(p);
    ScriptPolicyValid(p);
    RefillInRange(sp, stored, now);
    MulMonotone(0, cost, sp.window);
    var b := Step(p, stored, now, cost, room).0;
    assert Refill(sp, b, now) == b.value.level by {
      assert sp.limit * Max(0, now - now) == 0;
    }
    FloorDivGreatest(b.value.level, sp.window, next);
  }

  /**
   Retry hints are exact, under any clock: after a denial, the same check m milliseconds
   later, with room in the stream and nothing approved between, is allowed if and only if
   m is at least the hint.
   */
  lemma RetryHintExact(p: Policy, stored: Option<Bucket>, now: int, cost: int, room: bool, m: nat)
    requires ValidPolicy(p) && WellFormed(ScriptPolicy(p), stored)
    requires var o := Step(p, stored, now, cost, room).1; o.Decided? && !o.decision.allowed
    ensures var (b, o) := Step(p, stored, now, cost, room);
            Allowed(Step(p, b, now + m, cost, true).1) <==> m >= o.decision.retryAfterMS
  {
    var sp := ScriptPolicy(p);
    ScriptPolicyValid(p);
    var level := Refill(sp, stored, now);
    CoveredByCap(sp, cost);
    RetryCovers(sp.limit, cost * sp.window - level, m);
    var b := Step(p, stored, now, cost, room).0;
    assert b == Some(Write(sp, level, now));
    assert Refill(sp, b, now + m) >= cost * sp.window <==> level + sp.limit * m >= cost * sp.window;
  }

  lemma RetryCovers(limit: int, deficit: int, m: int)
    requires limit > 0 && deficit > 0
    ensures m >= Max(1, CeilDiv(deficit, limit)) <==> deficit <= limit * m
  {
    CeilDivLeast(deficit, limit, m);
    CeilDivLeast(deficit, limit, 0);
    assert m * limit == limit * m;
  }

  /** The reported reset is the least whole millisecond from which the bucket is full. */
  lemma ResetHintExact(p: Policy, stored: Option<Bucket>, now: int, cost: int, room: bool, t: int)
    requires ValidPolicy(p) && WellFormed(ScriptPolicy(p), stored) && now <= t
    requires Step(p, stored, now, cost, room).1.Decided?
    ensures var (b, o) := Step(p, stored, now, cost, room);
            Refill(ScriptPolicy(p), b, t) == Cap(ScriptPolicy(p)) <==> t * MS >= o.decision.resetAt
  {
    var sp := ScriptPolicy(p);
    ScriptPolicyValid(p);
    var b := Step(p, stored, now, cost, room).0;
    assert b.Some? && b.value.lastRefillMS == now;
    TokenBucket.FullFrom(sp, b.value.level, now, t);
  }
}
