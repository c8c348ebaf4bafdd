/** The contract every limiter shares (internal/ratelimiter/ratelimiter.go). */
module Limits {

  datatype Option<+T> = None | Some(value: T)

  newtype byte = x: int | 0 <= x < 256

  /** A Go string: an immutable sequence of bytes. */
  type Text = seq<byte>

  datatype Key = Key(clientID: Text, resource: Text)

  /** `window` is a duration; its unit is fixed by the limiter that reads it. */
  datatype Policy = Policy(limit: int, window: int)

  datatype Decision = Decision(allowed: bool, limit: int, remaining: int, resetAt: int, retryAfterMS: int)

  /** `CallFailed` is a Redis limiter's failed call; the breaker reports it as `DependencyFailure`. */
  datatype LimitError =
    | Cancelled
    | InvalidCost
    | CostExceedsLimit
    | NoPolicy
    | EventBacklogFull
    | CallFailed
    | DependencyFailure

  datatype Outcome = Decided(decision: Decision) | Refused(error: LimitError)

  /** One call of a limiter, on whichever key; `cancelled` if its context had ended. */
  datatype Call = Call(cancelled: bool, at: int, key: Key, cost: int)

  predicate Allowed(o: Outcome) {
    o.Decided? && o.decision.allowed
  }

  /** Answered with a decision, and the decision is no. */
  predicate Denied(o: Outcome) {
    o.Decided? && !o.decision.allowed
  }

  /** Nanoseconds in a millisecond. */
  const MS: int := 1_000_000

  /** `time.Duration.Milliseconds` truncates toward zero. */
  function Milliseconds(duration: int): int {
    if duration >= 0 then duration / MS else -((-duration) / MS)
  }

  /** The retry hint of the window limiters: whole milliseconds, rounded down, at least one. */
  function TruncatedRetryMS(wait: int): int {
    if Milliseconds(wait) >= 1 then Milliseconds(wait) else 1
  }

  /** A truncated hint covers the wait only when nothing was cut off, or the floor of one did. */
  lemma TruncatedRetryCovers(wait: int)
    requires wait > 0
    ensures TruncatedRetryMS(wait) * MS >= wait <==> wait % MS == 0 || wait <= MS
  {
    var q, r := wait / MS, wait % MS;
    assert wait == q * MS + r;
  }

  /** The hint is the wait cut to whole milliseconds, or one when nothing would be left. */
  lemma TruncatedRetryBounds(wait: int)
    requires wait > 0
    ensures var hint := TruncatedRetryMS(wait);
            hint >= 1 && wait < (hint + 1) * MS && (hint == 1 || hint * MS <= wait)
  {
    var q, r := wait / MS, wait % MS;
    assert wait == q * MS + r;
  }

  lemma TruncatedRetryPositive(wait: int)
    ensures TruncatedRetryMS(wait) >= 1
  {
  }

  predicate ValidPolicy(p: Policy) {
    p.limit > 0 && p.window > 0
  }

  /** What each constructor validates before it returns a limiter. */
  predicate ValidPolicies(policies: map<Key, Policy>) {
    forall k <- policies :: k.clientID != [] && k.resource != [] && ValidPolicy(policies[k])
  }

  /** What a request with this outcome charges to its key. */
  function Charged(o: Outcome, cost: int): int {
    if Allowed(o) then cost else 0
  }

  /** Keeps the elements whose flag is set. */
  function Select<T>(xs: seq<T>, keep: seq<bool>): seq<T>
    requires |xs| == |keep|
  {
    if xs == [] then []
    else
      var n := |xs| - 1;
      Select(xs[..n], keep[..n]) + (if keep[n] then [xs[n]] else [])
  }
}
