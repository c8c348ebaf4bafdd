/**
 The circuit breaker around the Redis limiter (internal/ratelimiter/circuit-breaker.go).

 `Allow` is two atomic steps under the mutex with the limiter call between them: a start,
 then one report. Calls interleave freely, so a call admitted in one state may report in
 another. A call that never reports is one still in flight.
 */
module CircuitBreaker {
  import opened Limits

  datatype State = Closed | Open | HalfOpen

  datatype Config = Config(failureThreshold: int, openTimeout: int, decisionTimeout: int)

  predicate ValidConfig(c: Config) {
    c.failureThreshold > 0 && c.openTimeout > 0 && c.decisionTimeout > 0
  }

  datatype Breaker = Breaker(state: State, failures: int, openedAt: int, probeRunning: bool)

  /** How a limiter call ended, as the breaker classifies it. */
  datatype Report = Success | RequestError | Failure

  predicate IsRequestError(e: LimitError) {
    e in {InvalidCost, CostExceedsLimit, NoPolicy, EventBacklogFull}
  }

  /** An answer is a success; a caller's mistake or cancellation says nothing about Redis. */
  function Classify(o: Outcome, callerGone: bool): Report {
    if o.Decided? then Success
    else if IsRequestError(o.error) || callerGone then RequestError
    else Failure
  }

  predicate IsReady(c: Config, b: Breaker, now: int) {
    b.state != Open || now - b.openedAt >= c.openTimeout
  }

  function Start(c: Config, b: Breaker, now: int): (Breaker, bool) {
    if b.state == Closed then (b, true)
    else if b.state == Open && now - b.openedAt < c.openTimeout then (b, false)
    else
      var probing := b.(state := HalfOpen);
      if b.probeRunning then (probing, false) else (probing.(probeRunning := true), true)
  }

  function Reopen(b: Breaker, now: int): Breaker {
    b.(state := Open, openedAt := now)
  }

  function Finish(c: Config, b: Breaker, now: int, r: Report): Breaker {
    match r
    case Success => Breaker(Closed, 0, b.openedAt, false)
    case RequestError => b.(state := if b.state == HalfOpen then Open else b.state, probeRunning := false)
    case Failure =>
      var idle := b.(probeRunning := false);
      if b.state == HalfOpen then Reopen(idle, now)
      else
        var counted := idle.(failures := b.failures + 1);
        if counted.failures >= c.failureThreshold then Reopen(counted, now) else counted
  }

  class CircuitBreakerLimiter {
    const config: Config
    var state: State
    var failures: int
    var openedAt: int
    var probeRunning: bool

    constructor (config: Config)
      requires ValidConfig(config)
      ensures this.config == config && View() == INITIAL
    {
      this.config := config;
      state, failures, openedAt, probeRunning := Closed, 0, 0, false;
    }

    function View(): Breaker
      reads this
    {
      Breaker(state, failures, openedAt, probeRunning)
    }

    /** A breaker, unless the threshold or a timeout is not positive. */
    static method New(config: Config) returns (r: Option<CircuitBreakerLimiter>)
      ensures r.Some? <==> config.failureThreshold > 0 && config.openTimeout > 0 && config.decisionTimeout > 0
      ensures r.Some? ==> fresh(r.value) && r.value.config == config && r.value.View() == INITIAL
    {
      if !ValidConfig(config) {
        return None;
      }
      var breaker := new CircuitBreakerLimiter(config);
      return Some(breaker);
    }

    method Ready(now: int) returns (ready: bool)
      ensures ready <==> IsReady(config, View(), now)
    {
      ready := state != Open || now - openedAt >= config.openTimeout;
    }

    method StartRequest(now: int) returns (admitted: bool)
      modifies this
      ensures (View(), admitted) == Start(config, old(View()), now)
    {
      if state == Closed {
        return true;
      }
      if state == Open {
        if now - openedAt < config.openTimeout {
          return false;
        }
        state := HalfOpen;
      }
      if probeRunning {
        return false;
      }
      probeRunning := true;
      return true;
    }

    method RecordSuccess(now: int)
      modifies this
      ensures View() == Finish(config, old(View()), now, Success)
    {
      state := Closed;
      failures := 0;
      probeRunning := false;
    }

    method RecordFailure(now: int)
      modifies this
      ensures View() == Finish(config, old(View()), now, Failure)
    {
      probeRunning := false;
      if state == HalfOpen {
        Trip(now);
        return;
      }
      failures := failures + 1;
      if failures >= config.failureThreshold {
        Trip(now);
      }
    }

    method CancelProbe(now: int)
      modifies this
      ensures View() == Finish(config, old(View()), now, RequestError)
    {
      if state == HalfOpen {
        state := Open;
      }
      probeRunning := false;
    }

    method Trip(now: int)
      modifies this`state, this`openedAt
      ensures View() == Reopen(old(View()), now)
    {
      state := Open;
      openedAt := now;
    }

    /** The report half of `Allow`, once the wrapped limiter has answered. */
    method Complete(now: int, answer: Outcome, callerGone: bool) returns (outcome: Outcome)
      modifies this
      ensures View() == Finish(config, old(View()), now, Classify(answer, callerGone))
      ensures outcome == if Classify(answer, callerGone) == Failure then Refused(DependencyFailure) else answer
    {
      if answer.Decided? {
        RecordSuccess(now);
        return answer;
      }
      if IsRequestError(answer.error) || callerGone {
        CancelProbe(now);
        return answer;
      }
      RecordFailure(now);
      return Refused(DependencyFailure);
    }
  }

  const INITIAL: Breaker := Breaker(Closed, 0, 0, false)

  // ---- Interleaved calls ----

  /** A call in flight: when it was admitted, and whether its start entered half-open. */
  datatype Flight = Flight(at: int, probe: bool)

  /**
   The breaker, the clock, the calls in flight, every report so far with its time, and the
   call whose start last entered half-open.
   */
  datatype World = World(
    breaker: Breaker, clock: int, calls: map<nat, Flight>, reports: seq<(Report, int)>, prober: Option<nat>)

  datatype Action = Tick(to: int) | Begin(call: nat) | End(call: nat, report: Report)

  function Apply(c: Config, w: World, a: Action): World {
    match a
    case Tick(to) => if w.clock <= to then w.(clock := to) else w
    case Begin(id) =>
      if id in w.calls then w
      else
        var (b, admitted) := Start(c, w.breaker, w.clock);
        var probe := w.breaker.state == Open;
        if admitted then
          w.(breaker := b,
             calls := w.calls[id := Flight(w.clock, probe)],
             prober := if probe then Some(id) else w.prober)
        else w.(breaker := b)
    case End(id, r) =>
      if id !in w.calls then w
      else w.(breaker := Finish(c, w.breaker, w.clock, r), calls := w.calls - {id}, reports := w.reports + [(r, w.clock)])
  }

  const ORIGIN: World := World(INITIAL, 0, map[], [], None)

  function Run(c: Config, acts: seq<Action>): World {
    if acts == [] then ORIGIN else Apply(c, Run(c, acts[..|acts| - 1]), acts[|acts| - 1])
  }

  /** Failures reported since the last success; request errors do not count. */
  function FailuresSinceSuccess(reports: seq<(Report, int)>): nat {
    if reports == [] then 0
    else
      var last := reports[|reports| - 1].0;
      if last == Success then 0
      else FailuresSinceSuccess(reports[..|reports| - 1]) + (if last == Failure then 1 else 0)
  }

  /** When the last dependency failure was reported. */
  function LastFailureAt(reports: seq<(Report, int)>): Option<int> {
    if reports == [] then None
    else
      var last := reports[|reports| - 1];
      if last.0 == Failure then Some(last.1) else LastFailureAt(reports[..|reports| - 1])
  }

  /** What every interleaving keeps. */
  predicate Inv(c: Config, w: World) {
    var b := w.breaker;
    && (b.state == HalfOpen <==> b.probeRunning)
    && (b.state == HalfOpen ==> w.prober.Some? && w.prober.value in w.calls && w.calls[w.prober.value].probe)
    && (b.state == Closed <==> b.failures < c.failureThreshold)
    && (b.state == Closed <==> FailuresSinceSuccess(w.reports) < c.failureThreshold)
    && (b.state == Closed ==> b.failures == FailuresSinceSuccess(w.reports))
    && (b.state != Closed ==> LastFailureAt(w.reports) == Some(b.openedAt))
    && (b.state == HalfOpen ==> w.clock - b.openedAt >= c.openTimeout)
    && 0 <= b.failures
    && (forall id <- w.calls :: w.calls[id].at <= w.clock)
  }

  lemma {:induction false} ReportAppend(reports: seq<(Report, int)>, r: Report, now: int)
    ensures FailuresSinceSuccess(reports + [(r, now)])
            == if r == Success then 0 else FailuresSinceSuccess(reports) + (if r == Failure then 1 else 0)
    ensures LastFailureAt(reports + [(r, now)]) == if r == Failure then Some(now) else LastFailureAt(reports)
  {
    assert (reports + [(r, now)])[..|reports|] == reports;
  }

  lemma {:induction false} StepKeepsInv(c: Config, w: World, a: Action)
    requires ValidConfig(c) && Inv(c, w)
    ensures Inv(c, Apply(c, w, a))
  {
    hide FailuresSinceSuccess, LastFailureAt;
    match a
    case Tick(to) =>
    case Begin(id) =>
    case End(id, r) => ReportAppend(w.reports, r, w.clock);
  }

  /**
   In every reachable state: half-open exactly while a probe is marked running, and then
   the call that entered half-open is still in flight; closed exactly while the failures reported
   since the last success are below the threshold, and then the failure count is their number;
   otherwise `openedAt` is the time of the last reported failure.
   */
  lemma {:induction false} RunKeepsInv(c: Config, acts: seq<Action>)
    requires ValidConfig(c)
    ensures Inv(c, Run(c, acts))
  {
    if acts != [] {
      RunKeepsInv(c, acts[..|acts| - 1]);
      StepKeepsInv(c, Run(c, acts[..|acts| - 1]), acts[|acts| - 1]);
    }
  }

  /** In every reachable state, a start is admitted exactly when ready and not half-open. */
  lemma {:induction false} AdmittedIffReady(c: Config, acts: seq<Action>)
    requires ValidConfig(c)
    ensures var w := Run(c, acts);
            Start(c, w.breaker, w.clock).1 <==> IsReady(c, w.breaker, w.clock) && w.breaker.state != HalfOpen
  {
    RunKeepsInv(c, acts);
  }

  /**
   Readiness told from the reports alone, in every reachable state: ready exactly while the
   failures since the last success are below the threshold, or the last failure was reported
   the open timeout ago or longer. A probe under way does not make it unready.
   */
  lemma {:induction false} ReadyExact(c: Config, acts: seq<Action>)
    requires ValidConfig(c)
    ensures var w := Run(c, acts);
            var last := LastFailureAt(w.reports);
            IsReady(c, w.breaker, w.clock) <==>
            || FailuresSinceSuccess(w.reports) < c.failureThreshold
            || (last.Some? && w.clock - last.value >= c.openTimeout)
  {
    hide Run, FailuresSinceSuccess, LastFailureAt;
    RunKeepsInv(c, acts);
  }

  // ---- One probe at a time ----

  /** Every call in flight was admitted less than `d` ago. */
  predicate Prompt(d: int, w: World) {
    forall id <- w.calls :: w.clock - w.calls[id].at < d
  }

  /** A run in which every admitted call reports before `d` has passed. */
  predicate PromptRun(c: Config, d: int, acts: seq<Action>) {
    Prompt(d, Run(c, acts)) && (acts != [] ==> PromptRun(c, d, acts[..|acts| - 1]))
  }

  ghost predicate SingleProbe(w: World) {
    && (w.breaker.state == HalfOpen ==> exists p :: w.calls.Keys == {p} && w.calls[p].probe)
    && (w.breaker.state != HalfOpen ==> forall id <- w.calls :: !w.calls[id].probe)
  }

  /** While open, everything in flight was admitted before the breaker opened. */
  predicate OpenDrains(w: World) {
    w.breaker.state == Open ==> forall id <- w.calls :: w.calls[id].at <= w.breaker.openedAt
  }

  /** Leaving half-open, a report can only be the probe's, and then nothing is in flight. */
  lemma {:induction false} StepKeepsSingle(c: Config, w: World, a: Action)
    requires ValidConfig(c) && Inv(c, w) && Prompt(c.openTimeout, w) && SingleProbe(w) && OpenDrains(w)
    ensures SingleProbe(Apply(c, w, a)) && OpenDrains(Apply(c, w, a))
  {
    hide FailuresSinceSuccess, LastFailureAt;
    var w' := Apply(c, w, a);
    match a
    case Tick(to) =>
    case Begin(id) =>
      if id !in w.calls && w.breaker.state == Open && w'.breaker.state == HalfOpen {
        assert w.calls.Keys == {} by {
          if k :| k in w.calls {
            assert false;
          }
        }
        assert w'.calls.Keys == {id};
      }
    case End(id, r) =>
      if id in w.calls && w.breaker.state == HalfOpen {
        var p :| w.calls.Keys == {p} && w.calls[p].probe;
        assert id == p;
        assert w'.calls.Keys == {};
      }
  }

  /**
   Timed single-probe safety: if every admitted call reports less than the open timeout
   after its admission, then in every interleaving half-open has exactly one call in
   flight, the probe, and outside half-open no probe is in flight, so no two overlap.
   */
  lemma {:induction false} SingleProbeWhenPrompt(c: Config, acts: seq<Action>)
    requires ValidConfig(c) && PromptRun(c, c.openTimeout, acts)
    ensures SingleProbe(Run(c, acts)) && OpenDrains(Run(c, acts))
  {
    if acts != [] {
      SingleProbeWhenPrompt(c, acts[..|acts| - 1]);
      RunKeepsInv(c, acts[..|acts| - 1]);
      StepKeepsSingle(c, Run(c, acts[..|acts| - 1]), acts[|acts| - 1]);
    }
  }

  lemma {:induction false} RunAppend(c: Config, d: int, acts: seq<Action>, a: Action)
    ensures Run(c, acts + [a]) == Apply(c, Run(c, acts), a)
    ensures PromptRun(c, d, acts + [a]) <==> PromptRun(c, d, acts) && Prompt(d, Run(c, acts + [a]))
  {
    assert (acts + [a])[..|acts|] == acts;
  }

  /** Call 1 starts and stays in flight while call 0 is made and fails `k` times. */
  lemma {:induction false} FailRepeatedly(c: Config, d: int, k: nat) returns (acts: seq<Action>)
    requires ValidConfig(c) && k <= c.failureThreshold && 0 < d
    ensures PromptRun(c, d, acts)
    ensures var w := Run(c, acts);
            && w.breaker == Breaker(if k < c.failureThreshold then Closed else Open, k, 0, false)
            && w.clock == 0 && w.calls == map[1 := Flight(0, false)]
  {
    if k == 0 {
      RunAppend(c, d, [], Begin(1));
      acts := [] + [Begin(1)];
    } else {
      var before := FailRepeatedly(c, d, k - 1);
      acts := FailOnce(c, d, before);
    }
  }

  lemma {:induction false} FailOnce(c: Config, d: int, before: seq<Action>) returns (acts: seq<Action>)
    requires ValidConfig(c) && PromptRun(c, d, before) && 0 < d
    requires var w := Run(c, before);
             && w.breaker.state == Closed && w.breaker.openedAt == 0
             && w.clock == 0 && w.calls == map[1 := Flight(0, false)]
    ensures PromptRun(c, d, acts)
    ensures var w, w' := Run(c, before), Run(c, acts);
            && w'.breaker == Finish(c, w.breaker, 0, Failure)
            && w'.clock == 0 && w'.calls == w.calls
  {
    hide Run, PromptRun;
    RunAppend(c, d, before, Begin(0));
    RunAppend(c, d, before + [Begin(0)], End(0, Failure));
    acts := before + [Begin(0)] + [End(0, Failure)];
    assert Run(c, acts).calls == Run(c, before).calls;
  }

  /**
   For every breaker, one report exactly the open timeout after admission is already too
   late. It clears the mark of the probe that is running: call 2 probes, call 1 reports a
   request error, and call 3 probes while 2 is still in flight.
   */
  lemma {:induction false} LateReportOverlapsProbes(c: Config) returns (acts: seq<Action>)
    requires ValidConfig(c)
    ensures PromptRun(c, c.openTimeout + 1, acts)
    ensures var w := Run(c, acts);
            2 in w.calls && w.calls[2].probe && 3 in w.calls && w.calls[3].probe
  {
    hide Run, PromptRun;
    var d := c.openTimeout + 1;
    var tripped := FailRepeatedly(c, d, c.failureThreshold);
    RunAppend(c, d, tripped, Tick(c.openTimeout));
    var before := tripped + [Tick(c.openTimeout)];
    RunAppend(c, d, before, Begin(2));
    RunAppend(c, d, before + [Begin(2)], End(1, RequestError));
    RunAppend(c, d, before + [Begin(2)] + [End(1, RequestError)], Begin(3));
    acts := before + [Begin(2)] + [End(1, RequestError)] + [Begin(3)];
  }

  /** Reporting within `d` rules out overlapping probes in every interleaving. */
  ghost predicate DeadlineSuffices(c: Config, d: int) {
    forall acts :: PromptRun(c, d, acts) ==> SingleProbe(Run(c, acts))
  }

  lemma {:induction false} PromptRelaxes(c: Config, d: int, d': int, acts: seq<Action>)
    requires d <= d' && PromptRun(c, d, acts)
    ensures PromptRun(c, d', acts)
  {
    if acts != [] {
      PromptRelaxes(c, d, d', acts[..|acts| - 1]);
    }
  }

  /** The open timeout is exactly the deadline that single-probe safety needs. */
  lemma {:induction false} DeadlineIsOpenTimeout(c: Config, d: int)
    requires ValidConfig(c)
    ensures DeadlineSuffices(c, d) <==> d <= c.openTimeout
  {
    hide Run, PromptRun;
    if d <= c.openTimeout {
      forall acts | PromptRun(c, d, acts)
        ensures SingleProbe(Run(c, acts))
      {
        PromptRelaxes(c, d, c.openTimeout, acts);
        SingleProbeWhenPrompt(c, acts);
      }
    } else {
      var acts := LateReportOverlapsProbes(c);
      PromptRelaxes(c, c.openTimeout + 1, d, acts);
      assert {2, 3} <= Run(c, acts).calls.Keys;
      assert !SingleProbe(Run(c, acts));
    }
  }

  /**
   Nothing relates the two timeouts of a configuration. When every call reports within its
   decision timeout, probes never overlap if and only if that timeout is no longer than the
   open timeout.
   */
  lemma {:induction false} SafeIffTimeoutsOrdered(c: Config)
    requires ValidConfig(c)
    ensures DeadlineSuffices(c, c.decisionTimeout) <==> c.decisionTimeout <= c.openTimeout
  {
    DeadlineIsOpenTimeout(c, c.decisionTimeout);
  }

  /** Ten milliseconds open and twenty to decide is accepted, and two probes may overlap. */
  lemma {:induction false} UnorderedTimeoutsAccepted()
    ensures var c := Config(1, 10 * MS, 20 * MS);
            ValidConfig(c) && !DeadlineSuffices(c, c.decisionTimeout)
  {
    SafeIffTimeoutsOrdered(Config(1, 10 * MS, 20 * MS));
  }
}
