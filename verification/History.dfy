/**
 The reference semantics of every limiter: what was charged to one key, and when.
 A charge of zero stands for a request that was refused.

 The token bucket's balance is scaled by the window (`tokens * window`), so a window's
 refill at rate limit/window adds exactly `limit` per unit of time and nothing rounds.
 */
module History {
  import opened Arithmetic
  import opened Limits

  /** A request for `cost` made at `at`, or what such a request was charged. */
  datatype Charge = Charge(at: int, cost: int)

  predicate OnKey(call: Call, key: Key) {
    !call.cancelled && call.key == key
  }

  /** The requests that reach one key, out of calls on any keys. */
  function RequestsOf(calls: seq<Call>, key: Key): seq<Charge> {
    if calls == [] then []
    else
      var call := calls[|calls| - 1];
      RequestsOf(calls[..|calls| - 1], key) + (if OnKey(call, key) then [Charge(call.at, call.cost)] else [])
  }

  /** The answers those requests were given. */
  function AnswersOf(calls: seq<Call>, outcomes: seq<Outcome>, key: Key): seq<Outcome>
    requires |calls| == |outcomes|
  {
    if calls == [] then []
    else
      var n := |calls| - 1;
      AnswersOf(calls[..n], outcomes[..n], key) + (if OnKey(calls[n], key) then [outcomes[n]] else [])
  }

  predicate Ordered(h: seq<Charge>) {
    forall i, j :: 0 <= i <= j < |h| ==> h[i].at <= h[j].at
  }

  /** No entry of `h` is later than `t`. */
  predicate UpTo(h: seq<Charge>, t: int) {
    forall i :: 0 <= i < |h| ==> h[i].at <= t
  }

  predicate Nonnegative(h: seq<Charge>) {
    forall i :: 0 <= i < |h| ==> 0 <= h[i].cost
  }

  /** The cost charged from entry `from` to the end. */
  function Spent(h: seq<Charge>, from: nat): int
    requires from <= |h|
  {
    if from == |h| then 0
    else Spent(h[..|h| - 1], from) + h[|h| - 1].cost
  }

  /** The cost charged at times in the closed interval [lo, hi]. */
  function CostIn(h: seq<Charge>, lo: int, hi: int): int {
    if h == [] then 0
    else
      var c := h[|h| - 1];
      CostIn(h[..|h| - 1], lo, hi) + (if lo <= c.at <= hi then c.cost else 0)
  }

  /** A full bucket. */
  function Cap(p: Policy): int {
    p.limit * p.window
  }

  /** The balance, at time `t`, of a bucket that began full and paid every charge of `h`. */
  function Level(p: Policy, h: seq<Charge>, t: int): (level: int)
    ensures level <= Cap(p)
  {
    if h == [] then Cap(p)
    else
      var c := h[|h| - 1];
      Min(Cap(p), Level(p, h[..|h| - 1], c.at) - c.cost * p.window + p.limit * (t - c.at))
  }

  /** The most the bucket could hold at `t`, had it been full just before entry `j`. */
  function Allowance(p: Policy, h: seq<Charge>, j: nat, t: int): int
    requires j <= |h|
  {
    Cap(p) + p.limit * (t - (if j < |h| then h[j].at else t)) - p.window * Spent(h, j)
  }

  lemma AllowanceStep(p: Policy, h: seq<Charge>, j: nat, t: int)
    requires j < |h|
    ensures var n := |h| - 1;
            Allowance(p, h, j, t)
            == Allowance(p, h[..n], j, h[n].at) - h[n].cost * p.window + p.limit * (t - h[n].at)
  {
    var n := |h| - 1;
    var s := Spent(h[..n], j);
    assert p.window * (s + h[n].cost) == p.window * s + h[n].cost * p.window;
    assert p.limit * (t - h[j].at) == p.limit * (h[n].at - h[j].at) + p.limit * (t - h[n].at);
  }

  lemma AllowancesStep(p: Policy, h: seq<Charge>, t: int)
    requires h != []
    requires var n := |h| - 1; forall j :: 0 <= j <= n ==> Level(p, h[..n], h[n].at) <= Allowance(p, h[..n], j, h[n].at)
    ensures forall j :: 0 <= j <= |h| ==> Level(p, h, t) <= Allowance(p, h, j, t)
  {
    forall j | 0 <= j <= |h| ensures Level(p, h, t) <= Allowance(p, h, j, t) {
      if j < |h| {
        AllowanceStep(p, h, j, t);
      } else {
        assert p.limit * (t - t) == 0;
      }
    }
  }

  /** Closed form of the balance: the minimum, over all suffixes, of what each one leaves. */
  lemma {:induction false} LevelIsMinimum(p: Policy, h: seq<Charge>, t: int) returns (least: nat)
    ensures forall j :: 0 <= j <= |h| ==> Level(p, h, t) <= Allowance(p, h, j, t)
    ensures least <= |h| && Level(p, h, t) == Allowance(p, h, least, t)
  {
    if h == [] {
      least := 0;
      assert p.limit * (t - t) == 0;
    } else {
      var n := |h| - 1;
      least := LevelIsMinimum(p, h[..n], h[n].at);
      AllowancesStep(p, h, t);
      AllowanceStep(p, h, least, t);
      if Level(p, h, t) == Cap(p) {
        least := |h|;
        assert p.limit * (t - t) == 0;
      }
    }
  }

  /** Every suffix of the history, with `cost` added, stays within its refilled allowance. */
  predicate Fits(p: Policy, h: seq<Charge>, t: int, cost: int) {
    && cost <= p.limit
    && forall j :: 0 <= j < |h| ==> SuffixFits(p, h, j, t, cost)
  }

  predicate SuffixFits(p: Policy, h: seq<Charge>, j: nat, t: int, cost: int)
    requires j < |h|
  {
    (Spent(h, j) + cost) * p.window <= p.limit * p.window + p.limit * (t - h[j].at)
  }

  lemma CoveredByCap(p: Policy, cost: int)
    requires ValidPolicy(p)
    ensures cost <= p.limit <==> cost * p.window <= Cap(p)
  {
    if cost <= p.limit {
      MulMonotone(cost, p.limit, p.window);
    } else {
      MulMonotone(p.limit + 1, cost, p.window);
    }
  }

  lemma SuffixFitsIffAllowance(p: Policy, h: seq<Charge>, j: nat, t: int, cost: int)
    requires j < |h|
    ensures SuffixFits(p, h, j, t, cost) <==> cost * p.window <= Allowance(p, h, j, t)
  {
    assert (Spent(h, j) + cost) * p.window == p.window * Spent(h, j) + cost * p.window;
  }

  /** A balance covers a cost exactly when every suffix has room for it. */
  lemma LevelCoversIffFits(p: Policy, h: seq<Charge>, t: int, cost: int)
    requires ValidPolicy(p)
    ensures cost * p.window <= Level(p, h, t) <==> Fits(p, h, t, cost)
  {
    var least := LevelIsMinimum(p, h, t);
    CoveredByCap(p, cost);
    if cost * p.window <= Level(p, h, t) {
      forall j | 0 <= j < |h| ensures SuffixFits(p, h, j, t, cost) {
        SuffixFitsIffAllowance(p, h, j, t, cost);
      }
    } else if least < |h| {
      SuffixFitsIffAllowance(p, h, least, t, cost);
    } else {
      assert p.limit * (t - t) == 0;
    }
  }

  /** Refilling in two steps, saturating each time, is refilling once. */
  lemma RefillComposes(cap: int, limit: int, x: int, first: int, second: int)
    requires 0 <= limit && 0 <= second
    ensures Min(cap, Min(cap, x + limit * first) + limit * second) == Min(cap, x + limit * (first + second))
  {
    assert limit * (first + second) == limit * first + limit * second;
    MulMonotone(0, second, limit);
  }

  /** A refused request leaves no trace in the balance. */
  lemma IdleChargeInvisible(p: Policy, h: seq<Charge>, at: int, t: int)
    requires ValidPolicy(p)
    requires UpTo(h, at) && at <= t
    ensures Level(p, h + [Charge(at, 0)], t) == Level(p, h, t)
  {
    var g := h + [Charge(at, 0)];
    assert g[..|g| - 1] == h;
    if h == [] {
      MulMonotone(0, t - at, p.limit);
    } else {
      var c := h[|h| - 1];
      var x := Level(p, h[..|h| - 1], c.at) - c.cost * p.window;
      RefillComposes(Cap(p), p.limit, x, at - c.at, t - at);
    }
  }

  /** Every charge was covered by the balance at its time. */
  predicate Backed(p: Policy, h: seq<Charge>) {
    && Ordered(h)
    && Nonnegative(h)
    && forall i :: 0 <= i < |h| ==> h[i].cost * p.window <= Level(p, h[..i], h[i].at)
  }

  lemma BackedPrefix(p: Policy, h: seq<Charge>, n: nat)
    requires Backed(p, h) && n <= |h|
    ensures Backed(p, h[..n])
  {
    forall i | 0 <= i < n ensures h[..n][i].cost * p.window <= Level(p, h[..n][..i], h[..n][i].at) {
      assert h[..n][..i] == h[..i];
    }
  }

  lemma BackedExtend(p: Policy, h: seq<Charge>, c: Charge)
    requires Backed(p, h) && UpTo(h, c.at) && 0 <= c.cost
    requires c.cost * p.window <= Level(p, h, c.at)
    ensures Backed(p, h + [c])
  {
    hide Level;
    var g := h + [c];
    forall i | 0 <= i < |g| ensures g[i].cost * p.window <= Level(p, g[..i], g[i].at) {
      if i == |h| {
        assert g[..i] == h && g[i] == c;
      } else {
        assert g[..i] == h[..i] && g[i] == h[i];
      }
    }
  }

  lemma {:induction false} NothingBefore(h: seq<Charge>, lo: int, hi: int)
    requires forall i :: 0 <= i < |h| ==> h[i].at < lo
    ensures CostIn(h, lo, hi) == 0
  {
    if h != [] {
      NothingBefore(h[..|h| - 1], lo, hi);
    }
  }

  /** The balance of a backed history is never negative. */
  lemma {:induction false} BalanceNonnegative(p: Policy, h: seq<Charge>, t: int)
    requires ValidPolicy(p) && Backed(p, h) && UpTo(h, t)
    ensures 0 <= Level(p, h, t)
  {
    MulMonotone(0, p.window, p.limit);
    if h != [] {
      var c := h[|h| - 1];
      assert c.cost * p.window <= Level(p, h[..|h| - 1], c.at);
      MulMonotone(0, t - c.at, p.limit);
    }
  }

  /** What was spent since `lo` and what is left never exceed a full bucket plus its refill. */
  lemma {:induction false} SpentPlusBalance(p: Policy, h: seq<Charge>, lo: int, hi: int, t: int)
    requires ValidPolicy(p) && Backed(p, h)
    requires UpTo(h, t) && lo <= t <= hi
    ensures CostIn(h, lo, hi) * p.window + Level(p, h, t) <= Cap(p) + p.limit * (t - lo)
  {
    if h == [] {
      MulMonotone(0, t - lo, p.limit);
    } else {
      var n := |h| - 1;
      var c := h[n];
      if lo <= c.at {
        BackedPrefix(p, h, n);
        SpentPlusBalance(p, h[..n], lo, hi, c.at);
        DistributeCost(CostIn(h[..n], lo, hi), c.cost, p.window);
        DistributeTime(p.limit, lo, c.at, t);
      } else {
        NothingBefore(h, lo, hi);
        MulMonotone(0, t - lo, p.limit);
      }
    }
  }

  lemma DistributeCost(a: int, b: int, window: int)
    ensures (a + b) * window == a * window + b * window
  {
  }

  lemma DistributeTime(limit: int, a: int, b: int, c: int)
    ensures limit * (c - a) == limit * (b - a) + limit * (c - b)
  {
  }

  /** The envelope: any closed interval spends at most one bucket plus its refill. */
  lemma {:induction false} Envelope(p: Policy, h: seq<Charge>, lo: int, hi: int)
    requires ValidPolicy(p) && Backed(p, h) && lo <= hi
    ensures CostIn(h, lo, hi) * p.window <= p.limit * p.window + p.limit * (hi - lo)
  {
    if h != [] && h[|h| - 1].at > hi {
      BackedPrefix(p, h, |h| - 1);
      Envelope(p, h[..|h| - 1], lo, hi);
    } else {
      SpentPlusBalance(p, h, lo, hi, hi);
      BalanceNonnegative(p, h, hi);
    }
  }

  lemma {:induction false} CostInNonnegative(h: seq<Charge>, lo: int, hi: int)
    requires Nonnegative(h)
    ensures 0 <= CostIn(h, lo, hi)
  {
    if h != [] {
      CostInNonnegative(h[..|h| - 1], lo, hi);
    }
  }

  /** Two entries in an interval cost no more together than the interval does. */
  lemma {:induction false} CostOfTwo(h: seq<Charge>, i: nat, k: nat, lo: int, hi: int)
    requires Nonnegative(h) && i < k < |h| && lo <= h[i].at <= hi && lo <= h[k].at <= hi
    ensures h[i].cost + h[k].cost <= CostIn(h, lo, hi)
  {
    var n := |h| - 1;
    if k < n {
      CostOfTwo(h[..n], i, k, lo, hi);
    } else {
      CostOfOne(h[..n], i, lo, hi);
    }
  }

  lemma {:induction false} CostOfOne(h: seq<Charge>, i: nat, lo: int, hi: int)
    requires Nonnegative(h) && i < |h| && lo <= h[i].at <= hi
    ensures h[i].cost <= CostIn(h, lo, hi)
  {
    var n := |h| - 1;
    if i < n {
      CostOfOne(h[..n], i, lo, hi);
    } else {
      CostInNonnegative(h[..n], lo, hi);
    }
  }

  lemma {:induction false} CostInWidens(h: seq<Charge>, lo: int, hi: int, lo': int, hi': int)
    requires Nonnegative(h) && lo' <= lo && hi <= hi'
    ensures CostIn(h, lo, hi) <= CostIn(h, lo', hi')
  {
    if h != [] {
      CostInWidens(h[..|h| - 1], lo, hi, lo', hi');
    }
  }

  lemma {:induction false} CostInSplits(h: seq<Charge>, lo: int, mid: int, hi: int)
    requires lo <= mid <= hi + 1
    ensures CostIn(h, lo, hi) == CostIn(h, lo, mid - 1) + CostIn(h, mid, hi)
  {
    if h != [] {
      CostInSplits(h[..|h| - 1], lo, mid, hi);
    }
  }

  lemma {:induction false} SpentSplits(h: seq<Charge>, j: nat, m: nat)
    requires j <= m <= |h|
    ensures Spent(h, j) == Spent(h[..m], j) + Spent(h, m)
  {
    if m == |h| {
      assert h[..m] == h;
    } else {
      var n := |h| - 1;
      SpentSplits(h[..n], j, m);
      assert h[..n][..m] == h[..m];
    }
  }

  /** Entries that all fall in an interval cost no more than the interval does. */
  lemma {:induction false} SuffixWithin(h: seq<Charge>, m: nat, lo: int, hi: int)
    requires m <= |h| && Nonnegative(h)
    requires forall k :: m <= k < |h| ==> lo <= h[k].at <= hi
    ensures Spent(h, m) <= CostIn(h, lo, hi)
  {
    if m == |h| {
      CostInNonnegative(h, lo, hi);
    } else {
      SuffixWithin(h[..|h| - 1], m, lo, hi);
    }
  }

  lemma {:induction false} CostInAppend(h: seq<Charge>, c: Charge, lo: int, hi: int)
    ensures CostIn(h + [c], lo, hi) == CostIn(h, lo, hi) + (if lo <= c.at <= hi then c.cost else 0)
  {
    assert (h + [c])[..|h|] == h;
  }

  /** Approved requests of a history, without the refused ones. */
  function Approved(h: seq<Charge>): seq<Charge> {
    if h == [] then []
    else
      var c := h[|h| - 1];
      Approved(h[..|h| - 1]) + (if c.cost == 0 then [] else [c])
  }

  lemma {:induction false} ApprovedAppend(h: seq<Charge>, c: Charge)
    ensures Approved(h + [c]) == if c.cost == 0 then Approved(h) else Approved(h) + [c]
  {
    assert (h + [c])[..|h|] == h;
  }

  lemma {:induction false} ApprovedCost(h: seq<Charge>, lo: int, hi: int)
    ensures CostIn(Approved(h), lo, hi) == CostIn(h, lo, hi)
  {
    if h != [] {
      var n := |h| - 1;
      ApprovedCost(h[..n], lo, hi);
      if h[n].cost != 0 {
        CostInAppend(Approved(h[..n]), h[n], lo, hi);
      } else {
        assert Approved(h) == Approved(h[..n]);
      }
    }
  }

  /** Refused requests do not change the balance, so the approvals alone determine it. */
  lemma {:induction false} ApprovedLevel(p: Policy, h: seq<Charge>, t: int)
    requires ValidPolicy(p) && Ordered(h) && UpTo(h, t)
    ensures Level(p, Approved(h), t) == Level(p, h, t)
  {
    if h != [] {
      var n := |h| - 1;
      var before, c := h[..n], h[n];
      assert h == before + [c];
      ApprovedAppend(before, c);
      if c.cost == 0 {
        ApprovedLevel(p, before, t);
        assert c == Charge(c.at, 0);
        IdleChargeInvisible(p, before, c.at, t);
      } else {
        ApprovedLevel(p, before, c.at);
        assert (Approved(before) + [c])[..|Approved(before)|] == Approved(before);
      }
    }
  }
}
