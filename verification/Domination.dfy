/**
 The limiters compared: on a run whose clock never steps back, requests that the sliding
 log approves throughout are approved throughout by the token bucket and the fixed window.
 */
module Domination {
  import opened Arithmetic
  import opened Limits
  import opened History
  import TokenBucket
  import SlidingLog
  import FixedWindow

  predicate AllAllowed(outcomes: seq<Outcome>) {
    forall i :: 0 <= i < |outcomes| ==> Allowed(outcomes[i])
  }

  /** Every rolling window that ends at a request is within the limit. */
  ghost predicate RollingWithin(p: Policy, h: seq<Charge>) {
    forall k :: 0 <= k < |h| ==> WindowAt(p, h, k) <= p.limit
  }

  function WindowAt(p: Policy, h: seq<Charge>, k: nat): int
    requires k < |h|
  {
    CostIn(h[..k + 1], h[k].at - p.window + 1, h[k].at)
  }

  /** A run approved throughout charges exactly what was asked. */
  lemma ChargesAreRequests(reqs: seq<Charge>, outcomes: seq<Outcome>, charges: seq<Charge>)
    requires |outcomes| == |charges| == |reqs| && AllAllowed(outcomes)
    requires forall i :: 0 <= i < |reqs| ==> charges[i] == Charge(reqs[i].at, Charged(outcomes[i], reqs[i].cost))
    ensures charges == reqs
  {
  }

  lemma {:induction false} SlidingLogRolls(p: Policy, reqs: seq<Charge>)
    requires ValidPolicy(p) && Ordered(reqs)
    requires AllAllowed(SlidingLog.Run(p, reqs).outcomes)
    ensures RollingWithin(p, reqs)
    ensures forall i :: 0 <= i < |reqs| ==> 0 < reqs[i].cost <= p.limit
  {
    var tr := SlidingLog.Run(p, reqs);
    ChargesAreRequests(reqs, tr.outcomes, tr.charges);
    SlidingLog.ChargesNonnegative(p, reqs);
    forall k | 0 <= k < |reqs| ensures 0 < reqs[k].cost <= p.limit && WindowAt(p, reqs, k) <= p.limit {
      SlidingLog.AdmissionLaw(p, reqs, k);
      WindowWithRequest(p, reqs, k);
    }
  }

  lemma {:induction false} WindowWithRequest(p: Policy, reqs: seq<Charge>, k: nat)
    requires k < |reqs| && Nonnegative(reqs) && ValidPolicy(p)
    ensures var before := CostIn(reqs[..k], reqs[k].at - p.window + 1, reqs[k].at);
            0 <= before && WindowAt(p, reqs, k) == before + reqs[k].cost
  {
    var lo, hi := reqs[k].at - p.window + 1, reqs[k].at;
    CostInNonnegative(reqs[..k], lo, hi);
    assert reqs[..k + 1] == reqs[..k] + [reqs[k]];
    CostInAppend(reqs[..k], reqs[k], lo, hi);
  }

  /** The last request, from `j` on, that is at least a window older than request `i`. */
  lemma {:induction false} LastOutside(h: seq<Charge>, j: nat, i: nat, cutoff: int) returns (m: nat)
    requires j <= i <= |h| && Ordered(h)
    ensures j <= m <= i
    ensures forall k :: j <= k < m ==> h[k].at <= cutoff
    ensures forall k :: m <= k < i ==> cutoff < h[k].at
  {
    if j < i && h[i - 1].at > cutoff {
      m := LastOutside(h, j, i - 1, cutoff);
    } else {
      m := i;
    }
  }

  /**
   Covering. Peeling one rolling window at a time off the end, the cost from request `j`
   through request `i` is at most the limit plus the refill of the time between them.
   */
  lemma {:induction false} RollingImpliesEnvelope(p: Policy, h: seq<Charge>, j: nat, i: nat)
    requires ValidPolicy(p) && Ordered(h) && Nonnegative(h) && RollingWithin(p, h)
    requires j <= i < |h|
    ensures Spent(h[..i + 1], j) * p.window <= p.limit * p.window + p.limit * (h[i].at - h[j].at)
    decreases i
  {
    var g, cutoff := h[..i + 1], h[i].at - p.window;
    var m := LastOutside(h, j, i + 1, cutoff);
    SpentSplits(g, j, m);
    SuffixWithin(g, m, cutoff + 1, h[i].at);
    assert WindowAt(p, h, i) <= p.limit;
    MulMonotone(Spent(g, m), p.limit, p.window);
    if m == j {
      assert Spent(g[..m], j) == 0;
      MulMonotone(0, h[i].at - h[j].at, p.limit);
    } else {
      RollingImpliesEnvelope(p, h, j, m - 1);
      assert g[..m] == h[..m - 1 + 1];
      DistributeCost(Spent(g[..m], j), Spent(g, m), p.window);
      MulMonotone(h[m - 1].at - h[j].at + p.window, h[i].at - h[j].at, p.limit);
      assert p.limit * (h[m - 1].at - h[j].at + p.window) == p.limit * (h[m - 1].at - h[j].at) + p.limit * p.window;
    }
  }

  /** What the sliding log approves throughout, the token bucket approves throughout. */
  lemma {:induction false} TokenBucketDominates(p: Policy, reqs: seq<Charge>)
    requires ValidPolicy(p) && Ordered(reqs)
    requires RollingWithin(p, reqs)
    requires forall i :: 0 <= i < |reqs| ==> 0 < reqs[i].cost <= p.limit
    ensures AllAllowed(TokenBucket.Run(p, reqs).outcomes)
  {
    if reqs != [] {
      var n := |reqs| - 1;
      RollingPrefix(p, reqs, n);
      TokenBucketDominates(p, reqs[..n]);
      TokenBucket.RunPrefix(p, reqs, n);
      var tr := TokenBucket.Run(p, reqs[..n]);
      ChargesAreRequests(reqs[..n], tr.outcomes, tr.charges);
      RollingFits(p, reqs);
      LevelCoversIffFits(p, reqs[..n], reqs[n].at, reqs[n].cost);
      TokenBucket.AllowedIffCovered(p, reqs, n);
    }
  }

  lemma {:induction false} RollingFits(p: Policy, reqs: seq<Charge>)
    requires ValidPolicy(p) && Ordered(reqs) && Nonnegative(reqs) && RollingWithin(p, reqs)
    requires reqs != [] && reqs[|reqs| - 1].cost <= p.limit
    ensures Fits(p, reqs[..|reqs| - 1], reqs[|reqs| - 1].at, reqs[|reqs| - 1].cost)
  {
    var n := |reqs| - 1;
    forall j | 0 <= j < n ensures SuffixFits(p, reqs[..n], j, reqs[n].at, reqs[n].cost) {
      RollingImpliesEnvelope(p, reqs, j, n);
      assert reqs[..n + 1] == reqs;
    }
  }

  lemma RollingPrefix(p: Policy, h: seq<Charge>, n: nat)
    requires RollingWithin(p, h) && n <= |h|
    ensures RollingWithin(p, h[..n])
  {
    forall k | 0 <= k < n ensures WindowAt(p, h[..n], k) <= p.limit {
      assert h[..n][..k + 1] == h[..k + 1];
      assert WindowAt(p, h, k) <= p.limit;
    }
  }

  /** What the sliding log approves throughout, the fixed window approves throughout. */
  lemma {:induction false} FixedWindowDominates(p: Policy, reqs: seq<Charge>)
    requires ValidPolicy(p) && Ordered(reqs)
    requires RollingWithin(p, reqs)
    requires forall i :: 0 <= i < |reqs| ==> 0 < reqs[i].cost <= p.limit
    ensures AllAllowed(FixedWindow.Run(p, reqs).outcomes)
  {
    if reqs != [] {
      var n := |reqs| - 1;
      RollingPrefix(p, reqs, n);
      FixedWindowDominates(p, reqs[..n]);
      FixedWindow.RunPrefix(p, reqs, n);
      var tr := FixedWindow.Run(p, reqs[..n]);
      ChargesAreRequests(reqs[..n], tr.outcomes, tr.charges);
      FixedWindow.OrderedNeverRevisits(p, reqs);
      FixedWindow.AdmissionLaw(p, reqs, n);
      var s := FixedWindow.Start(p, reqs[n].at);
      FixedWindow.StartFacts(p, reqs[n].at);
      AlignedWithinRolling(p, reqs, s);
    }
  }

  lemma {:induction false} AlignedWithinRolling(p: Policy, reqs: seq<Charge>, s: int)
    requires reqs != [] && Ordered(reqs) && Nonnegative(reqs) && RollingWithin(p, reqs)
    requires s <= reqs[|reqs| - 1].at < s + p.window
    ensures FixedWindow.WindowCost(p, reqs[..|reqs| - 1], s) + reqs[|reqs| - 1].cost <= p.limit
  {
    var n := |reqs| - 1;
    assert WindowAt(p, reqs, n) <= p.limit;
    assert reqs[..n + 1] == reqs;
    CutAtNow(reqs[..n], s, s + p.window - 1, reqs[n].at);
    CostInWidens(reqs[..n], s, reqs[n].at, reqs[n].at - p.window + 1, reqs[n].at);
  }

  lemma {:induction false} CutAtNow(h: seq<Charge>, lo: int, hi: int, now: int)
    requires UpTo(h, now) && now <= hi
    ensures CostIn(h, lo, hi) == CostIn(h, lo, now)
  {
    if h != [] {
      CutAtNow(h[..|h| - 1], lo, hi, now);
    }
  }

  /**
   Domination: if the sliding log approves every request of a run, so do the token bucket
   and the fixed window with the same policy.
   */
  lemma {:induction false} SlidingLogIsStrictest(p: Policy, reqs: seq<Charge>)
    requires ValidPolicy(p) && Ordered(reqs)
    requires AllAllowed(SlidingLog.Run(p, reqs).outcomes)
    ensures AllAllowed(TokenBucket.Run(p, reqs).outcomes)
    ensures AllAllowed(FixedWindow.Run(p, reqs).outcomes)
  {
    SlidingLogRolls(p, reqs);
    TokenBucketDominates(p, reqs);
    FixedWindowDominates(p, reqs);
  }
}
