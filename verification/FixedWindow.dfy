/** The fixed-window limiter (internal/ratelimiter/fixed-window.go). Times are nanoseconds. */
module FixedWindow {
  import opened Arithmetic
  import opened Limits
  import opened History

  datatype Window = Window(start: int, used: int)

  /** A key never seen reads as Go's zero value: the window at the zero time, unused. */
  const ZERO: Window := Window(0, 0)

  /** `time.Time.Truncate`: the aligned window that contains `now`. */
  function Start(p: Policy, now: int): int
    requires ValidPolicy(p)
  {
    now - now % p.window
  }

  function WindowFor(p: Policy, stored: Window, now: int): Window
    requires ValidPolicy(p)
  {
    var start := Start(p, now);
    if stored.start != start then Window(start, 0) else stored
  }

  /** One `Allow` call on one key: the stored window afterwards, and the answer. */
  function Step(p: Policy, stored: Window, now: int, cost: int): (Window, Outcome)
    requires ValidPolicy(p)
  {
    if cost <= 0 then (stored, Refused(InvalidCost))
    else
      var window := WindowFor(p, stored, now);
      var resetAt := window.start + p.window;
      if cost > p.limit - window.used then
        (stored, Decided(Decision(false, p.limit, p.limit - window.used, resetAt,
                                  TruncatedRetryMS(resetAt - now))))
      else
        var used := window.used + cost;
        (Window(window.start, used), Decided(Decision(true, p.limit, p.limit - used, resetAt, 0)))
  }

  function Lookup(windows: map<Key, Window>, key: Key): Window {
    if key in windows then windows[key] else ZERO
  }

  /** One `Allow` call on whichever key: every stored window afterwards, and the answer. */
  function Serve(policies: map<Key, Policy>, windows: map<Key, Window>, call: Call): (map<Key, Window>, Outcome)
    requires ValidPolicies(policies)
  {
    if call.cancelled then (windows, Refused(Cancelled))
    else if call.cost <= 0 then (windows, Refused(InvalidCost))
    else if call.key !in policies then (windows, Refused(NoPolicy))
    else
      var (w, o) := Step(policies[call.key], Lookup(windows, call.key), call.at, call.cost);
      (if Allowed(o) then windows[call.key := w] else windows, o)
  }

  class FixedWindowRateLimiter {
    const policies: map<Key, Policy>
    var windows: map<Key, Window>

    constructor (policies: map<Key, Policy>)
      requires ValidPolicies(policies)
      ensures this.policies == policies && windows == map[]
    {
      this.policies := policies;
      windows := map[];
    }

    function Stored(key: Key): Window
      reads this
    {
      Lookup(windows, key)
    }

    /** A limiter, unless a policy is invalid. */
    static method New(policies: map<Key, Policy>) returns (r: Option<FixedWindowRateLimiter>)
      ensures r.Some? <==> (forall k <- policies ::
                             k.clientID != [] && k.resource != [] && policies[k].limit > 0 && policies[k].window > 0)
      ensures r.Some? ==> fresh(r.value) && r.value.policies == policies && r.value.windows == map[]
    {
      if !ValidPolicies(policies) {
        return None;
      }
      var limiter := new FixedWindowRateLimiter(policies);
      return Some(limiter);
    }

    method Allow(cancelled: bool, now: int, key: Key, cost: int) returns (outcome: Outcome)
      requires ValidPolicies(policies)
      modifies this
      ensures (windows, outcome) == Serve(policies, old(windows), Call(cancelled, now, key, cost))
      ensures cancelled ==> outcome == Refused(Cancelled)
      ensures !cancelled && key !in policies ==>
                outcome == Refused(if cost <= 0 then InvalidCost else NoPolicy)
      ensures cancelled || key !in policies ==> windows == old(windows)
      ensures !cancelled && key in policies ==>
                (Stored(key), outcome) == Step(policies[key], old(Stored(key)), now, cost)
      ensures forall k :: k != key ==> Stored(k) == old(Stored(k))
    {
      if cancelled {
        return Refused(Cancelled);
      }
      if cost <= 0 {
        return Refused(InvalidCost);
      }
      if key !in policies {
        return Refused(NoPolicy);
      }
      var policy := policies[key];
      var window := WindowFor(policy, Stored(key), now);
      var resetAt := window.start + policy.window;
      if cost > policy.limit - window.used {
        return Decided(Decision(false, policy.limit, policy.limit - window.used, resetAt,
                                TruncatedRetryMS(resetAt - now)));
      }
      window := window.(used := window.used + cost);
      windows := windows[key := window];
      return Decided(Decision(true, policy.limit, policy.limit - window.used, resetAt, 0));
    }
  }

  datatype Trace = Trace(window: Window, outcomes: seq<Outcome>, charges: seq<Charge>)

  function Run(p: Policy, reqs: seq<Charge>): (tr: Trace)
    requires ValidPolicy(p)
    ensures |tr.outcomes| == |tr.charges| == |reqs|
    ensures forall i :: 0 <= i < |reqs| ==>
                          tr.charges[i] == Charge(reqs[i].at, Charged(tr.outcomes[i], reqs[i].cost))
  {
    if reqs == [] then Trace(ZERO, [], [])
    else
      var r := reqs[|reqs| - 1];
      var before := Run(p, reqs[..|reqs| - 1]);
      var (w, o) := Step(p, before.window, r.at, r.cost);
      Trace(w, before.outcomes + [o], before.charges + [Charge(r.at, Charged(o, r.cost))])
  }

  lemma {:induction false} RunAppend(p: Policy, h: seq<Charge>, r: Charge)
    requires ValidPolicy(p)
    ensures var before, after := Run(p, h), Run(p, h + [r]);
            var (w, o) := Step(p, before.window, r.at, r.cost);
            && after.window == w
            && after.outcomes == before.outcomes + [o]
            && after.charges == before.charges + [Charge(r.at, Charged(o, r.cost))]
  {
    assert (h + [r])[..|h|] == h;
  }

  lemma {:induction false} RunPrefix(p: Policy, reqs: seq<Charge>, n: nat)
    requires ValidPolicy(p) && n <= |reqs|
    ensures Run(p, reqs[..n]).outcomes == Run(p, reqs).outcomes[..n]
    ensures Run(p, reqs[..n]).charges == Run(p, reqs).charges[..n]
  {
    if n == |reqs| {
      assert reqs[..n] == reqs;
    } else {
      RunPrefix(p, reqs[..|reqs| - 1], n);
      assert reqs[..|reqs| - 1][..n] == reqs[..n];
    }
  }

  /** What any calls, on any keys, leave in the limiter, and their answers. */
  function ServeAll(policies: map<Key, Policy>, calls: seq<Call>): (r: (map<Key, Window>, seq<Outcome>))
    requires ValidPolicies(policies)
    ensures |r.1| == |calls|
  {
    if calls == [] then (map[], [])
    else
      var (windows, outcomes) := ServeAll(policies, calls[..|calls| - 1]);
      var (windows', o) := Serve(policies, windows, calls[|calls| - 1]);
      (windows', outcomes + [o])
  }

  /** Keys do not interfere: what a key's calls are answered is that key's own run. */
  lemma {:induction false} MixedRun(policies: map<Key, Policy>, calls: seq<Call>, key: Key)
    requires ValidPolicies(policies) && key in policies
    ensures var tr := Run(policies[key], RequestsOf(calls, key));
            && Lookup(ServeAll(policies, calls).0, key) == tr.window
            && AnswersOf(calls, ServeAll(policies, calls).1, key) == tr.outcomes
  {
    hide Step, Run;
    if calls == [] {
      assert Run(policies[key], []) == Trace(ZERO, [], []) by {
        EmptyRun(policies[key]);
      }
    } else {
      var n := |calls| - 1;
      var call, p, before := calls[n], policies[key], RequestsOf(calls[..n], key);
      MixedRun(policies, calls[..n], key);
      assert ServeAll(policies, calls).1[..n] == ServeAll(policies, calls[..n]).1;
      if OnKey(call, key) {
        RunAppend(p, before, Charge(call.at, call.cost));
        RefusalStoresNothing(p, Run(p, before).window, call.at, call.cost);
      } else {
        assert RequestsOf(calls, key) == before;
      }
    }
  }

  lemma EmptyRun(p: Policy)
    requires ValidPolicy(p)
    ensures Run(p, []) == Trace(ZERO, [], [])
  {
  }

  lemma RefusalStoresNothing(p: Policy, stored: Window, now: int, cost: int)
    requires ValidPolicy(p)
    ensures !Allowed(Step(p, stored, now, cost).1) ==> Step(p, stored, now, cost).0 == stored
    ensures cost <= 0 ==> Step(p, stored, now, cost).1 == Refused(InvalidCost)
  {
  }

  /** `s` starts an aligned window. */
  predicate Aligned(p: Policy, s: int)
    requires ValidPolicy(p)
  {
    s % p.window == 0
  }

  /** What the history charged in the window that starts at `s`. */
  function WindowCost(p: Policy, h: seq<Charge>, s: int): int {
    CostIn(h, s, s + p.window - 1)
  }

  lemma MultiplesApart(a: int, b: int, w: int)
    requires w > 0 && a % w == 0 && b % w == 0 && a < b
    ensures a + w <= b
  {
    var i, j := a / w, b / w;
    FloorDivBounds(a, w);
    FloorDivBounds(b, w);
    assert a == i * w && b == j * w;
    if j <= i {
      MulMonotone(j, i, w);
    }
    MulMonotone(i + 1, j, w);
  }

  lemma StartFacts(p: Policy, now: int)
    requires ValidPolicy(p)
    ensures Aligned(p, Start(p, now)) && Start(p, now) <= now < Start(p, now) + p.window
  {
    var q := now / p.window;
    assert Start(p, now) == q * p.window;
    FloorDivUnique(q * p.window, p.window, q);
  }

  lemma StartMonotone(p: Policy, now: int, later: int)
    requires ValidPolicy(p) && now <= later
    ensures Start(p, now) <= Start(p, later)
  {
    StartFacts(p, now);
    StartFacts(p, later);
    if Start(p, later) < Start(p, now) {
      MultiplesApart(Start(p, later), Start(p, now), p.window);
    }
  }

  /** The stored counter's reading for the window that starts at `s`. */
  function Reading(stored: Window, s: int): int {
    if stored.start == s then stored.used else 0
  }

  predicate Matches(p: Policy, stored: Window, h: seq<Charge>, s: int) {
    Reading(stored, s) == WindowCost(p, h, s)
  }

  lemma InWindow(p: Policy, t: int, s: int)
    requires ValidPolicy(p) && Aligned(p, s)
    ensures s <= t <= s + p.window - 1 <==> Start(p, t) == s
  {
    StartFacts(p, t);
    if s < Start(p, t) {
      MultiplesApart(s, Start(p, t), p.window);
    } else if Start(p, t) < s {
      MultiplesApart(Start(p, t), s, p.window);
    }
  }

  /** No aligned window is entered again after the clock was seen outside it. */
  predicate NeverRevisits(p: Policy, h: seq<Charge>)
    requires ValidPolicy(p)
  {
    forall i, j, k :: 0 <= i < j < k < |h| && Start(p, h[i].at) == Start(p, h[k].at) ==> Start(p, h[j].at) == Start(p, h[i].at)
  }

  lemma {:induction false} OrderedNeverRevisits(p: Policy, h: seq<Charge>)
    requires ValidPolicy(p) && Ordered(h)
    ensures NeverRevisits(p, h)
  {
    hide Start;
    forall i, j, k | 0 <= i < j < k < |h| && Start(p, h[i].at) == Start(p, h[k].at)
      ensures Start(p, h[j].at) == Start(p, h[i].at)
    {
      StartMonotone(p, h[i].at, h[j].at);
      StartMonotone(p, h[j].at, h[k].at);
    }
  }

  /** The window starting at `s` is where the last request fell, or has seen none. */
  ghost predicate Current(p: Policy, h: seq<Charge>, s: int)
    requires ValidPolicy(p)
  {
    || (h != [] && Start(p, h[|h| - 1].at) == s)
    || forall i :: 0 <= i < |h| ==> Start(p, h[i].at) != s
  }

  /** For the last window seen and for windows not seen yet, the counter is the history's cost. */
  ghost predicate Counts(p: Policy, stored: Window, h: seq<Charge>)
    requires ValidPolicy(p)
  {
    forall s :: Aligned(p, s) && Current(p, h, s) ==> Matches(p, stored, h, s)
  }

  lemma {:induction false} NextIsCurrent(p: Policy, h: seq<Charge>, r: Charge)
    requires ValidPolicy(p) && NeverRevisits(p, h + [r])
    ensures Current(p, h, Start(p, r.at))
  {
    hide Start;
    var g, n := h + [r], |h|;
    if i :| 0 <= i < n && Start(p, h[i].at) == Start(p, r.at) {
      assert g[i] == h[i] && g[n - 1] == h[n - 1] && g[n] == r;
      assert i < n - 1 ==> Start(p, g[n - 1].at) == Start(p, g[i].at);
    }
  }

  lemma {:induction false} CurrentBefore(p: Policy, h: seq<Charge>, c: Charge, s: int)
    requires ValidPolicy(p) && Current(p, h + [c], s) && Start(p, c.at) != s
    ensures Current(p, h, s)
    ensures forall i :: 0 <= i < |h| ==> Start(p, h[i].at) != s
  {
    hide Start;
    var g := h + [c];
    assert g[|g| - 1] == c;
    forall i | 0 <= i < |h| ensures Start(p, h[i].at) != s {
      assert g[i] == h[i];
    }
  }

  lemma {:induction false} UnvisitedCost(p: Policy, h: seq<Charge>, s: int)
    requires ValidPolicy(p) && Aligned(p, s)
    requires forall i :: 0 <= i < |h| ==> Start(p, h[i].at) != s
    ensures WindowCost(p, h, s) == 0
  {
    hide Start;
    if h != [] {
      UnvisitedCost(p, h[..|h| - 1], s);
      InWindow(p, h[|h| - 1].at, s);
    }
  }

  lemma {:induction false} StepCounts(p: Policy, stored: Window, h: seq<Charge>, r: Charge)
    requires ValidPolicy(p) && Counts(p, stored, h) && Current(p, h, Start(p, r.at))
    ensures var (w, o) := Step(p, stored, r.at, r.cost);
            Counts(p, w, h + [Charge(r.at, Charged(o, r.cost))])
  {
    hide Start, Current, TruncatedRetryMS;
    var (w, o) := Step(p, stored, r.at, r.cost);
    var c := Charge(r.at, Charged(o, r.cost));
    StartFacts(p, r.at);
    assert Matches(p, stored, h, Start(p, r.at));
    forall s | Aligned(p, s) && Current(p, h + [c], s) ensures Matches(p, w, h + [c], s) {
      CostInAppend(h, c, s, s + p.window - 1);
      InWindow(p, r.at, s);
      if Start(p, r.at) != s {
        CurrentBefore(p, h, c, s);
        UnvisitedCost(p, h, s);
        assert Matches(p, stored, h, s);
      }
    }
  }

  /** Only the times matter to whether a window is revisited. */
  lemma {:induction false} RevisitsByTime(p: Policy, g: seq<Charge>, h: seq<Charge>, n: nat)
    requires ValidPolicy(p) && NeverRevisits(p, g) && |h| == n <= |g|
    requires forall i :: 0 <= i < n ==> h[i].at == g[i].at
    ensures NeverRevisits(p, h)
  {
    hide Start;
  }

  lemma {:induction false} RunCounts(p: Policy, reqs: seq<Charge>)
    requires ValidPolicy(p) && NeverRevisits(p, reqs)
    ensures Counts(p, Run(p, reqs).window, Run(p, reqs).charges)
  {
    hide Start, Counts, NeverRevisits, Step;
    if reqs == [] {
      assert Counts(p, ZERO, []) by {
        NothingCounts(p);
      }
    } else {
      var n := |reqs| - 1;
      var before, r := Run(p, reqs[..n]), reqs[n];
      RevisitsByTime(p, reqs, reqs[..n], n);
      RunCounts(p, reqs[..n]);
      RevisitsByTime(p, reqs, before.charges + [r], n + 1);
      NextIsCurrent(p, before.charges, r);
      RunAppend(p, reqs[..n], r);
      assert reqs[..n] + [r] == reqs;
      StepCounts(p, before.window, before.charges, r);
    }
  }

  lemma NothingCounts(p: Policy)
    requires ValidPolicy(p)
    ensures Counts(p, ZERO, [])
  {
    forall s | Aligned(p, s) ensures Matches(p, ZERO, [], s) {
    }
  }

  lemma {:induction false} OutcomeAt(p: Policy, reqs: seq<Charge>, i: nat)
    requires ValidPolicy(p) && i < |reqs|
    ensures Run(p, reqs).outcomes[i] == Step(p, Run(p, reqs[..i]).window, reqs[i].at, reqs[i].cost).1
    ensures Run(p, reqs).charges[..i] == Run(p, reqs[..i]).charges
  {
    RunPrefix(p, reqs, i);
    RunPrefix(p, reqs, i + 1);
    assert reqs[..i + 1][..i] == reqs[..i];
    assert Run(p, reqs).outcomes[i] == Run(p, reqs[..i + 1]).outcomes[i];
  }

  /**
   The counter refines the full history: a request is allowed exactly when everything
   charged in its aligned window, plus its cost, is within the limit. The clock may step
   back, as long as no window is revisited.
   */
  lemma {:induction false} AdmissionLaw(p: Policy, reqs: seq<Charge>, i: nat)
    requires ValidPolicy(p) && NeverRevisits(p, reqs) && i < |reqs|
    ensures var tr := Run(p, reqs);
            Allowed(tr.outcomes[i]) <==>
            0 < reqs[i].cost && WindowCost(p, tr.charges[..i], Start(p, reqs[i].at)) + reqs[i].cost <= p.limit
  {
    hide NeverRevisits, Run, Start, Current;
    var before := Run(p, reqs[..i]);
    OutcomeAt(p, reqs, i);
    RevisitsByTime(p, reqs, reqs[..i], i);
    RunCounts(p, reqs[..i]);
    RevisitsByTime(p, reqs, before.charges + [reqs[i]], i + 1);
    NextIsCurrent(p, before.charges, reqs[i]);
    StartFacts(p, reqs[i].at);
    assert Matches(p, before.window, before.charges, Start(p, reqs[i].at));
  }

  ghost predicate WindowsWithin(p: Policy, h: seq<Charge>)
    requires ValidPolicy(p)
  {
    forall s :: Aligned(p, s) ==> WindowCost(p, h, s) <= p.limit
  }

  lemma {:induction false} WithinUnlessRevisited(p: Policy, reqs: seq<Charge>)
    requires ValidPolicy(p) && NeverRevisits(p, reqs)
    ensures WindowsWithin(p, Run(p, reqs).charges)
  {
    hide NeverRevisits, Start;
    if reqs != [] {
      var n := |reqs| - 1;
      RevisitsByTime(p, reqs, reqs[..n], n);
      WithinUnlessRevisited(p, reqs[..n]);
      AdmissionLaw(p, reqs, n);
      RunPrefix(p, reqs, n);
      forall s | Aligned(p, s) ensures WindowCost(p, Run(p, reqs).charges, s) <= p.limit {
        assert WindowCost(p, Run(p, reqs[..n]).charges, s) <= p.limit;
        InWindow(p, reqs[n].at, s);
      }
    }
  }

  /** Requests at the same times, whatever their costs. */
  predicate SameTimes(a: seq<Charge>, b: seq<Charge>) {
    |a| == |b| && forall i :: 0 <= i < |a| ==> a[i].at == b[i].at
  }

  /** Requests made at these times keep every aligned window within the limit, whatever they cost. */
  ghost predicate TimesAreSafe(p: Policy, times: seq<Charge>)
    requires ValidPolicy(p)
  {
    forall reqs :: SameTimes(times, reqs) ==> WindowsWithin(p, Run(p, reqs).charges)
  }

  /** The whole limit at `i` and `k`, one at `j`, nothing else. */
  function Revisit(p: Policy, times: seq<Charge>, i: nat, j: nat, k: nat): seq<Charge> {
    seq(|times|, n requires 0 <= n < |times| =>
      Charge(times[n].at, if n == i || n == k then p.limit else if n == j then 1 else 0))
  }

  lemma {:induction false} RevisitRun(p: Policy, times: seq<Charge>, i: nat, j: nat, k: nat, n: nat)
    requires ValidPolicy(p) && i < j < k < |times| && n <= k
    requires Start(p, times[i].at) != Start(p, times[j].at)
    ensures var w := Run(p, Revisit(p, times, i, j, k)[..n]).window;
            if n <= i then w == ZERO
            else if n <= j then w == Window(Start(p, times[i].at), p.limit)
            else w == Window(Start(p, times[j].at), 1)
  {
    hide Start, Step, Run;
    var reqs := Revisit(p, times, i, j, k);
    if n == 0 {
      EmptyRun(p);
      assert reqs[..n] == [];
    } else {
      RevisitRun(p, times, i, j, k, n - 1);
      assert reqs[..n] == reqs[..n - 1] + [reqs[n - 1]];
      RunAppend(p, reqs[..n - 1], reqs[n - 1]);
      var stored, r := Run(p, reqs[..n - 1]).window, reqs[n - 1];
      if n - 1 == i || n - 1 == j {
        UnusedWindowGrants(p, stored, r.at, r.cost);
      } else {
        RefusalStoresNothing(p, stored, r.at, r.cost);
      }
    }
  }

  /** A window left and entered again grants its limit twice. */
  lemma {:induction false} RevisitOverspends(p: Policy, times: seq<Charge>, i: nat, j: nat, k: nat)
    requires ValidPolicy(p) && i < j < k < |times|
    requires Start(p, times[i].at) == Start(p, times[k].at) != Start(p, times[j].at)
    ensures WindowCost(p, Run(p, Revisit(p, times, i, j, k)).charges, Start(p, times[i].at)) >= 2 * p.limit
  {
    hide Start, Run, TruncatedRetryMS;
    var reqs, s := Revisit(p, times, i, j, k), Start(p, times[i].at);
    RevisitRun(p, times, i, j, k, i);
    RevisitRun(p, times, i, j, k, k);
    OutcomeAt(p, reqs, i);
    OutcomeAt(p, reqs, k);
    var charges := Run(p, reqs).charges;
    assert charges[i].cost == charges[k].cost == p.limit;
    ChargesNonnegative(p, reqs);
    StartFacts(p, times[i].at);
    StartFacts(p, times[k].at);
    CostOfTwo(charges, i, k, s, s + p.window - 1);
  }

  /**
   Exactly when the window bound holds: requests at given times keep every aligned window
   within the limit, whatever their costs, if and only if no window is revisited after
   the clock left it.
   */
  lemma {:induction false} SafeIffNeverRevisited(p: Policy, times: seq<Charge>)
    requires ValidPolicy(p)
    ensures TimesAreSafe(p, times) <==> NeverRevisits(p, times)
  {
    hide Start, WindowsWithin, Run, Revisit;
    if NeverRevisits(p, times) {
      forall reqs | SameTimes(times, reqs) ensures WindowsWithin(p, Run(p, reqs).charges) {
        RevisitsByTime(p, times, reqs, |reqs|);
        WithinUnlessRevisited(p, reqs);
      }
    } else {
      var i, j, k :| 0 <= i < j < k < |times| && Start(p, times[i].at) == Start(p, times[k].at) != Start(p, times[j].at);
      RevisitOverspends(p, times, i, j, k);
      RevisitIsUnsafe(p, times, i, j, k);
    }
  }

  lemma RevisitIsUnsafe(p: Policy, times: seq<Charge>, i: nat, j: nat, k: nat)
    requires ValidPolicy(p) && i < |times|
    requires WindowCost(p, Run(p, Revisit(p, times, i, j, k)).charges, Start(p, times[i].at)) >= 2 * p.limit
    ensures !TimesAreSafe(p, times)
  {
    hide Run, Start;
    StartFacts(p, times[i].at);
    assert SameTimes(times, Revisit(p, times, i, j, k));
  }

  /** Under a clock that never steps back, no aligned window charges more than the limit. */
  lemma {:induction false} WindowWithinLimit(p: Policy, reqs: seq<Charge>, s: int)
    requires ValidPolicy(p) && Ordered(reqs) && Aligned(p, s)
    ensures WindowCost(p, Run(p, reqs).charges, s) <= p.limit
  {
    hide NeverRevisits, Run;
    OrderedNeverRevisits(p, reqs);
    SafeIffNeverRevisited(p, reqs);
    assert SameTimes(reqs, reqs);
  }

  lemma AlignedShift(p: Policy, s: int, m: int)
    requires ValidPolicy(p) && Aligned(p, s)
    ensures Aligned(p, s + m * p.window)
  {
    var q := s / p.window;
    FloorDivBounds(s, p.window);
    assert s + m * p.window == (q + m) * p.window;
    FloorDivUnique((q + m) * p.window, p.window, q + m);
  }

  lemma {:induction false} ConsecutiveWindows(p: Policy, h: seq<Charge>, s: int, m: nat)
    requires ValidPolicy(p) && WindowsWithin(p, h) && Aligned(p, s)
    ensures CostIn(h, s, s + m * p.window - 1) <= m * p.limit
  {
    if m == 0 {
      EmptyInterval(h, s);
    } else {
      var next := s + (m - 1) * p.window;
      ConsecutiveWindows(p, h, s, m - 1);
      AlignedShift(p, s, m - 1);
      assert WindowCost(p, h, next) <= p.limit;
      MulMonotone(0, m - 1, p.window);
      CostInSplits(h, s, next, next + p.window - 1);
      DistributeCost(m - 1, 1, p.window);
      DistributeCost(m - 1, 1, p.limit);
    }
  }

  lemma {:induction false} EmptyInterval(h: seq<Charge>, s: int)
    ensures CostIn(h, s, s - 1) == 0
  {
    if h != [] {
      EmptyInterval(h[..|h| - 1], s);
    }
  }

  lemma {:induction false} ChargesNonnegative(p: Policy, reqs: seq<Charge>)
    requires ValidPolicy(p)
    ensures Nonnegative(Run(p, reqs).charges)
  {
    if reqs != [] {
      ChargesNonnegative(p, reqs[..|reqs| - 1]);
    }
  }

  /** The burst bound: a closed interval k windows long charges at most k + 1 limits. */
  lemma {:induction false} BurstBound(p: Policy, reqs: seq<Charge>, a: int, k: nat)
    requires ValidPolicy(p) && Ordered(reqs)
    ensures CostIn(Run(p, reqs).charges, a, a + k * p.window) <= (k + 1) * p.limit
  {
    ChargesNonnegative(p, reqs);
    forall w | Aligned(p, w) ensures WindowCost(p, Run(p, reqs).charges, w) <= p.limit {
      WindowWithinLimit(p, reqs, w);
    }
    IntervalWithin(p, Run(p, reqs).charges, a, k);
  }

  lemma {:induction false} IntervalWithin(p: Policy, h: seq<Charge>, a: int, k: nat)
    requires ValidPolicy(p) && WindowsWithin(p, h) && Nonnegative(h)
    ensures CostIn(h, a, a + k * p.window) <= (k + 1) * p.limit
  {
    var s := Start(p, a);
    StartFacts(p, a);
    ConsecutiveWindows(p, h, s, k + 1);
    DistributeCost(k, 1, p.window);
    CostInWidens(h, a, a + k * p.window, s, s + (k + 1) * p.window - 1);
  }

  /** `remaining` is exactly the largest cost a further request at the same instant may have. */
  lemma RemainingExact(p: Policy, stored: Window, now: int, cost: int, next: int)
    requires ValidPolicy(p) && 0 < next
    requires Step(p, stored, now, cost).1.Decided?
    ensures var (w, o) := Step(p, stored, now, cost);
            Allowed(Step(p, w, now, next).1) <==> next <= o.decision.remaining
  {
  }

  lemma {:induction false} RunUsed(p: Policy, reqs: seq<Charge>)
    requires ValidPolicy(p)
    ensures 0 <= Run(p, reqs).window.used <= p.limit
  {
    if reqs != [] {
      RunUsed(p, reqs[..|reqs| - 1]);
    }
  }

  /** A window with something in it is not from the future. */
  lemma {:induction false} RunStart(p: Policy, reqs: seq<Charge>, now: int)
    requires ValidPolicy(p) && UpTo(reqs, now)
    ensures Run(p, reqs).window.used > 0 ==> Run(p, reqs).window.start <= now
  {
    hide TruncatedRetryMS, Start;
    if reqs != [] {
      RunStart(p, reqs[..|reqs| - 1], now);
      StartFacts(p, reqs[|reqs| - 1].at);
    }
  }

  lemma {:induction false} LaterReading(p: Policy, stored: Window, now: int, t: int)
    requires ValidPolicy(p) && now <= t
    ensures Start(p, t) == Start(p, now) <==> t < Start(p, now) + p.window
    ensures Start(p, t) != Start(p, now) && stored.start <= now ==> Reading(stored, Start(p, t)) == 0
  {
    StartFacts(p, now);
    StartFacts(p, t);
    StartMonotone(p, now, t);
    if Start(p, now) < Start(p, t) {
      MultiplesApart(Start(p, now), Start(p, t), p.window);
    }
  }

  lemma StepDecides(p: Policy, stored: Window, t: int, cost: int)
    requires ValidPolicy(p)
    ensures Allowed(Step(p, stored, t, cost).1) <==> 0 < cost <= p.limit - Reading(stored, Start(p, t))
  {
    hide Start;
  }

  lemma DenialIs(p: Policy, stored: Window, now: int, cost: int)
    requires ValidPolicy(p) && Denied(Step(p, stored, now, cost).1)
    ensures var (w, o) := Step(p, stored, now, cost);
            && w == stored
            && 0 < cost && cost > p.limit - Reading(stored, Start(p, now))
            && o.decision.resetAt == Start(p, now) + p.window
            && o.decision.retryAfterMS == TruncatedRetryMS(Start(p, now) + p.window - now)
  {
    hide Start;
  }

  /**
   After a denial, the same request succeeds from `resetAt` on and not before, provided its
   cost is within the limit; a larger cost is answered with a reset too, and never succeeds.
   */
  lemma {:induction false} ResetHintExact(p: Policy, reqs: seq<Charge>, now: int, cost: int, t: int)
    requires ValidPolicy(p) && now <= t
    requires Denied(Step(p, Run(p, reqs).window, now, cost).1)
    ensures var (w, o) := Step(p, Run(p, reqs).window, now, cost);
            Allowed(Step(p, w, t, cost).1) <==> cost <= p.limit && t >= o.decision.resetAt
  {
    hide Step, Run, Start;
    var stored := Run(p, reqs).window;
    RunUsed(p, reqs);
    DenialIs(p, stored, now, cost);
    StepDecides(p, stored, t, cost);
    LaterReading(p, stored, now, t);
  }

  /**
   The millisecond hint is truncated, and is given for costs no window can hold: waiting
   exactly that long is enough if and only if the cost is within the limit and the wait is
   whole milliseconds or no longer than one.
   */
  lemma {:induction false} RetryHintSuffices(p: Policy, reqs: seq<Charge>, now: int, cost: int)
    requires ValidPolicy(p)
    requires Denied(Step(p, Run(p, reqs).window, now, cost).1)
    ensures var (w, o) := Step(p, Run(p, reqs).window, now, cost);
            var wait := Start(p, now) + p.window - now;
            Allowed(Step(p, w, now + o.decision.retryAfterMS * MS, cost).1) <==>
            cost <= p.limit && (wait % MS == 0 || wait <= MS)
  {
    hide Step, Run, Start, TruncatedRetryMS;
    var stored := Run(p, reqs).window;
    var wait := Start(p, now) + p.window - now;
    StartFacts(p, now);
    DenialIs(p, stored, now, cost);
    TruncatedRetryCovers(wait);
    TruncatedRetryPositive(wait);
    ResetHintExact(p, reqs, now, cost, now + TruncatedRetryMS(wait) * MS);
  }

  /** How long the hint is: the time to the end of the window, cut to whole milliseconds but at least one. */
  lemma {:induction false} RetryHintSize(p: Policy, stored: Window, now: int, cost: int)
    requires ValidPolicy(p) && Denied(Step(p, stored, now, cost).1)
    ensures var hint, wait := Step(p, stored, now, cost).1.decision.retryAfterMS, Start(p, now) + p.window - now;
            0 < wait && hint >= 1 && wait < (hint + 1) * MS && (hint == 1 || hint * MS <= wait)
  {
    hide Step, Start, TruncatedRetryMS;
    StartFacts(p, now);
    DenialIs(p, stored, now, cost);
    TruncatedRetryBounds(Start(p, now) + p.window - now);
  }

  /**
   Which answers there are: a cost that is not positive is an error, any other is decided,
   and reports the limit, the end of the aligned window that holds `now`, and no wait when
   allowed.
   */
  lemma {:induction false} AnswerForm(p: Policy, stored: Window, now: int, cost: int)
    requires ValidPolicy(p)
    ensures var o := Step(p, stored, now, cost).1;
            && (cost <= 0 ==> o == Refused(InvalidCost))
            && (0 < cost ==>
                  && o.Decided? && o.decision.limit == p.limit
                  && o.decision.resetAt - p.window <= now < o.decision.resetAt
                  && (o.decision.resetAt - p.window) % p.window == 0
                  && (Allowed(o) ==> o.decision.retryAfterMS == 0))
  {
    hide Start, TruncatedRetryMS;
    StartFacts(p, now);
  }

  /** A cost above the limit is denied with a positive hint, now and at any other time. */
  lemma {:induction false} OversizedNeverFits(p: Policy, reqs: seq<Charge>, now: int, cost: int, t: int)
    requires ValidPolicy(p) && p.limit < cost
    ensures var (w, o) := Step(p, Run(p, reqs).window, now, cost);
            Denied(o) && o.decision.retryAfterMS >= 1 && Denied(Step(p, w, t, cost).1)
  {
    hide Run, Start, TruncatedRetryMS;
    RunUsed(p, reqs);
    TruncatedRetryPositive(Start(p, now) + p.window - now);
  }

  /** A wait of one and a half milliseconds, hinted as one: the retry is denied again. */
  lemma {:induction false} RetryHintFallsShort()
    ensures var p := Policy(1, 1_500_000);
            var full := Run(p, [Charge(0, 1)]).window;
            var o := Step(p, full, 0, 1).1;
            Denied(o) && !Allowed(Step(p, full, o.decision.retryAfterMS * MS, 1).1)
  {
    hide Run, Start, Step, TruncatedRetryMS;
    var p := Policy(1, 1_500_000);
    EarlyStarts(p);
    FirstGrant(p);
    StepDecides(p, Window(0, 1), 0, 1);
    PositiveDecided(p, Window(0, 1), 0, 1);
    RetryHintSuffices(p, [Charge(0, 1)], 0, 1);
    DenialIs(p, Window(0, 1), 0, 1);
  }

  lemma PositiveDecided(p: Policy, stored: Window, now: int, cost: int)
    requires ValidPolicy(p) && 0 < cost
    ensures Step(p, stored, now, cost).1.Decided?
  {
  }

  lemma {:induction false} FirstGrant(p: Policy)
    requires ValidPolicy(p)
    ensures Run(p, [Charge(0, 1)]).window == Window(0, 1)
  {
    hide Start, TruncatedRetryMS;
    EarlyStarts(p);
    EmptyRun(p);
    RunAppend(p, [], Charge(0, 1));
    assert [] + [Charge(0, 1)] == [Charge(0, 1)];
  }

  /** The whole limit would be granted at `t`. */
  predicate FullAt(p: Policy, stored: Window, t: int)
    requires ValidPolicy(p)
  {
    Allowed(Step(p, stored, t, p.limit).1)
  }

  /** From `now` on, capacity is full exactly from `reset` on. */
  ghost predicate FullFrom(p: Policy, stored: Window, now: int, reset: int)
    requires ValidPolicy(p)
  {
    forall t :: now <= t ==> (FullAt(p, stored, t) <==> t >= reset)
  }

  /** At the present instant, the counter is what the history charged in the window. */
  lemma {:induction false} ReadingNow(p: Policy, reqs: seq<Charge>, now: int)
    requires ValidPolicy(p) && Ordered(reqs) && UpTo(reqs, now)
    ensures Reading(Run(p, reqs).window, Start(p, now)) == WindowCost(p, Run(p, reqs).charges, Start(p, now))
  {
    hide Start, Run, Current, NeverRevisits;
    var h := Run(p, reqs).charges;
    OrderedNeverRevisits(p, reqs);
    RunCounts(p, reqs);
    OrderedNeverRevisits(p, h + [Charge(now, 0)]);
    NextIsCurrent(p, h, Charge(now, 0));
    StartFacts(p, now);
    assert Matches(p, Run(p, reqs).window, h, Start(p, now));
  }

  /**
   The reported reset is the least time of full capacity if and only if the cost is within
   the limit or something was charged in the window before: a cost above the limit, asked of
   an unused window, is told to wait for capacity that is already full.
   */
  lemma {:induction false} ResetIsFullCapacity(p: Policy, reqs: seq<Charge>, now: int, cost: int)
    requires ValidPolicy(p) && Ordered(reqs) && UpTo(reqs, now)
    requires Step(p, Run(p, reqs).window, now, cost).1.Decided?
    ensures var (w, o) := Step(p, Run(p, reqs).window, now, cost);
            FullFrom(p, w, now, o.decision.resetAt) <==>
            cost <= p.limit || WindowCost(p, Run(p, reqs).charges, Start(p, now)) > 0
  {
    hide Start, Run, TruncatedRetryMS, WindowCost, Ordered, UpTo, FullFrom;
    var (w, o) := Step(p, Run(p, reqs).window, now, cost);
    RunUsed(p, reqs);
    RunStart(p, reqs, now);
    ReadingNow(p, reqs, now);
    StartFacts(p, now);
    assert o.decision.resetAt == Start(p, now) + p.window;
    CapacityOver(p, w, now);
  }

  lemma {:induction false} CapacityOver(p: Policy, w: Window, now: int)
    requires ValidPolicy(p) && 0 <= w.used && (w.used > 0 ==> w.start <= now)
    ensures FullFrom(p, w, now, Start(p, now) + p.window) <==> Reading(w, Start(p, now)) > 0
  {
    hide Start, Step;
    var s := Start(p, now);
    StartFacts(p, now);
    forall t | now <= t ensures FullAt(p, w, t) <==> t >= s + p.window || Reading(w, s) == 0 {
      StepDecides(p, w, t, p.limit);
      LaterReading(p, w, now, t);
      StartFacts(p, t);
    }
    assert FullAt(p, w, now) <==> Reading(w, s) == 0;
  }

  /**
   Two asked of an unused window of one: the hint is two whole milliseconds and the retry is
   denied again; the reset is two milliseconds away, although capacity is full now.
   */
  lemma {:induction false} OversizedHintFails()
    ensures var p := Policy(1, 2 * MS);
            var (w, o) := Step(p, ZERO, 0, 2);
            && Denied(o) && o.decision.retryAfterMS == 2 && !Allowed(Step(p, w, 2 * MS, 2).1)
            && o.decision.resetAt == 2 * MS && FullAt(p, w, 0)
  {
    var p := Policy(1, 2 * MS);
    EmptyRun(p);
    OversizedNeverFits(p, [], 0, 2, 2 * MS);
    assert Start(p, 0) == 0;
  }

  lemma EarlyStarts(p: Policy)
    requires ValidPolicy(p)
    ensures Start(p, 0) == Start(p, p.window - 1) == 0 && Start(p, p.window) == p.window
  {
    FloorDivUnique(0, p.window, 0);
    FloorDivUnique(p.window - 1, p.window, 0);
    FloorDivUnique(p.window, p.window, 1);
  }

  /** An unused window grants any cost within the limit. */
  lemma UnusedWindowGrants(p: Policy, stored: Window, now: int, cost: int)
    requires ValidPolicy(p) && Reading(stored, Start(p, now)) == 0 && 0 < cost <= p.limit
    ensures Allowed(Step(p, stored, now, cost).1)
    ensures Step(p, stored, now, cost).0 == Window(Start(p, now), cost)
  {
    hide Start;
  }

  /** The limit at the end of the first window, and at the start of each of the next `k`. */
  function Burst(p: Policy, k: nat): seq<Charge> {
    if k == 0 then [Charge(p.window - 1, p.limit)]
    else Burst(p, k - 1) + [Charge(k * p.window, p.limit)]
  }

  lemma {:induction false} BurstTimes(p: Policy, k: nat)
    requires ValidPolicy(p)
    ensures Ordered(Burst(p, k)) && UpTo(Burst(p, k), p.window - 1 + k * p.window)
  {
    if k > 0 {
      BurstTimes(p, k - 1);
      DistributeCost(k - 1, 1, p.window);
    }
  }

  lemma {:induction false} BurstCost(p: Policy, k: nat, hi: int)
    requires ValidPolicy(p) && p.window - 1 + k * p.window <= hi
    ensures CostIn(Burst(p, k), p.window - 1, hi) == (k + 1) * p.limit
  {
    hide CostIn;
    if k == 0 {
      var first := Charge(p.window - 1, p.limit);
      CostInAppend([], first, p.window - 1, hi);
      EmptyCost(p.window - 1, hi);
      assert [] + [first] == [first];
    } else {
      MulMonotone(k - 1, k, p.window);
      MulMonotone(1, k, p.window);
      BurstCost(p, k - 1, hi);
      CostInAppend(Burst(p, k - 1), Charge(k * p.window, p.limit), p.window - 1, hi);
      DistributeCost(k, 1, p.limit);
    }
  }

  lemma EmptyCost(lo: int, hi: int)
    ensures CostIn([], lo, hi) == 0
  {
  }

  lemma StartOfMultiple(p: Policy, k: int)
    requires ValidPolicy(p)
    ensures Start(p, k * p.window) == k * p.window
  {
    FloorDivUnique(k * p.window, p.window, k);
  }

  lemma {:induction false} BurstGranted(p: Policy, k: nat)
    requires ValidPolicy(p)
    ensures Run(p, Burst(p, k)).charges == Burst(p, k)
    ensures Run(p, Burst(p, k)).window == Window(k * p.window, p.limit)
  {
    hide Start, Step;
    if k == 0 {
      var first := Charge(p.window - 1, p.limit);
      EarlyStarts(p);
      EmptyRun(p);
      UnusedWindowGrants(p, ZERO, p.window - 1, p.limit);
      RunAppend(p, [], first);
      assert [] + [first] == [first];
    } else {
      var next := Charge(k * p.window, p.limit);
      BurstGranted(p, k - 1);
      StartOfMultiple(p, k);
      DistributeCost(k - 1, 1, p.window);
      UnusedWindowGrants(p, Window((k - 1) * p.window, p.limit), k * p.window, p.limit);
      RunAppend(p, Burst(p, k - 1), next);
    }
  }

  /** The burst bound is attained for every policy and every number of windows. */
  lemma {:induction false} BurstAttained(p: Policy, k: nat) returns (reqs: seq<Charge>, a: int)
    requires ValidPolicy(p)
    ensures Ordered(reqs)
    ensures CostIn(Run(p, reqs).charges, a, a + k * p.window) == (k + 1) * p.limit
  {
    hide Run;
    reqs, a := Burst(p, k), p.window - 1;
    BurstTimes(p, k);
    BurstCost(p, k, a + k * p.window);
    BurstGranted(p, k);
  }

  /** If the clock goes back to a window it left, what was used there is forgotten. */
  lemma {:induction false} ClockStepsBack(p: Policy)
    requires ValidPolicy(p)
    ensures var reqs := [Charge(0, p.limit), Charge(p.window, 1), Charge(0, p.limit)];
            WindowCost(p, Run(p, reqs).charges, 0) >= 2 * p.limit
  {
    hide Run;
    var reqs := [Charge(0, p.limit), Charge(p.window, 1), Charge(0, p.limit)];
    EarlyStarts(p);
    RevisitOverspends(p, reqs, 0, 1, 2);
    assert Revisit(p, reqs, 0, 1, 2) == reqs;
  }
}
