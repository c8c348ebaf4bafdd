# Rate Limiter As A Service: a verified model

The service answers "may this client spend this cost on this resource now?" from a token
bucket per (client, resource) key that Redis holds and a Lua script updates, appends one event
per approval to a Redis stream in the same step, and has workers move those events to
PostgreSQL. A circuit breaker guards the calls to Redis. The repository also keeps three
in-memory limiters with the same contract: fixed window, sliding log and token bucket.

This project models that logic in Dafny and proves what it keeps over whole runs.

| file | what it models |
|---|---|
| `Limits.dfy`, `Arithmetic.dfy` | the shared contract; ceilings and floors |
| `History.dfy` | the reference semantics: what one key was charged, and the balance, allowance and envelope that follow |
| `TokenBucket.dfy` | the in-memory token bucket |
| `RedisBucket.dfy` | the script's arithmetic on one key, with expiry and the backlog guard |
| `BucketRefinement.dfy` | the Redis bucket against the in-memory one, for any window; Redis under a clock that steps back |
| `SlidingLog.dfy`, `FixedWindow.dfy`, `Domination.dfy` | the two window limiters, and the three algorithms compared |
| `RedisKeys.dfy`, `Events.dfy` | bucket key names; the event codec |
| `Pipeline.dfy` | stream, consumer group, table, and the worker's `Processor` |
| `RedisLimiter.dfy` | the script statement by statement, and the Go method around it |
| `Service.dfy`, `Billing.dfy`, `Draining.dfy` | the whole service as a transition system; what holds of every run; progress |
| `CircuitBreaker.dfy` | the breaker, and every interleaving of its callers |
| `Delivery.dfy` | one check through breaker, limiter and script: what the caller is told and what it is charged |

## How to read it

- Token counts are scaled by the policy's window (`level = tokens * window`), so refill, spend
  and comparison are exact integer operations. Where the source divides, the model takes the
  floor or ceiling the source takes.
- In memory, times are nanoseconds since Go's zero time; the script works in milliseconds with
  the window rounded up. A run is a sequence of requests on one key; a request that was refused
  is a charge of zero.
- The classes hold the source's fields and their methods follow the source's statements; each
  method is proved equal to a `Step` function, and the laws are proved of runs of that function.
- The service is a function `Apply` on states; every action list is a run, and an action that
  is not enabled changes nothing. A call of `persistMessages` is a session that may stop
  anywhere; sessions may hold the same entries; a command may take effect after its sender gave
  up. A check's reply may be lost after the script ran: its effect is the same, and the caller is
  told that the dependency failed.
- Redis may remove a bucket key at any moment from its deadline on, which covers both removal
  on access and removal in the background.

Assumptions: the script runs atomically and to completion, Redis loses no acknowledged write,
every API instance has the same policies and backlog limit, and the clock never steps back
unless a statement says "any clock".

## Where the code and its documentation differ

The model follows the code.

- `docs/api.md:31` says `retry_after_ms` reports when enough capacity exists for the complete cost.
  The window limiters truncate to whole milliseconds, so a retry after exactly that long can be
  denied again (`FixedWindow.RetryHintFallsShort`, `SlidingLog.RetryHintFallsShort`), and unlike the
  token buckets they give a hint for a cost above the limit, which never succeeds
  (`FixedWindow.OversizedHintFails`, `SlidingLog.OversizedHintFails`). The hint suffices if and only
  if the cost is within the limit and the wait is whole milliseconds or at most one
  (`RetryHintSuffices` in both). The token buckets round up and their hints are exact.
- `docs/api.md:31` calls `reset_at` the time of full capacity. The token buckets report exactly
  that. In the sliding log newer charges can outlast it
  (`SlidingLog.ResetBeforeFull`); it is the time of full capacity after an approval if and only if
  nothing was charged in the window before that instant (`SlidingLog.ApprovalResetIsFull`), and
  after a denial if and only if the newest charges alone block the request
  (`SlidingLog.DenialResetIsFull`). In the fixed window it is if and only if the cost is within the
  limit or the window was already charged (`FixedWindow.ResetIsFullCapacity`, and
  `FixedWindow.OversizedHintFails` for a case where it is not).
- `docs/api.md:39` says a 503 does not spend quota. A 503 spends quota if and only if the script ran,
  granted the request and its reply was lost (`Delivery.UnavailableSpends`), which can happen on
  the very first check (`Delivery.LostReplyCharges`); an open breaker and a full backlog never
  charge.
- `docs/redis-resilience.md:9` promises one recovery probe. A report by an older call while a
  probe runs clears the probe mark, and a second probe may start
  (`CircuitBreaker.LateReportOverlapsProbes`). A deadline for reports rules that out if and only
  if it is at most the open timeout (`CircuitBreaker.DeadlineIsOpenTimeout`), and the constructor
  never relates the decision timeout to it (`CircuitBreaker.UnorderedTimeoutsAccepted`).
- The fixed window's limit per aligned window assumes more than its code ensures: when the clock
  returns to a window it left, that window grants its limit again (`FixedWindow.ClockStepsBack`).
  Request times are safe, whatever the costs, if and only if no window is revisited
  (`FixedWindow.SafeIffNeverRevisited`).
- The policy validator accepts limits above 2^31-1, whose events the decoder may reject; one such
  event stops every batch that holds it (`Draining.OversizedLimitBlocks`) and stays in the stream
  (`Draining.UnstorableStays`). A configuration never appends one if and only if every limit is at
  most 2^31-1 (`Draining.NeverPoisonedIffInt32`).

## Model

| member | source | states |
|---|---|---|
| History.LevelIsMinimum | internal/ratelimiter/token-bucket.go:113-116 | the balance of a bucket is the minimum, over all suffixes of its charges, of a full bucket plus the refill since minus the charges since |
| History.LevelCoversIffFits | internal/ratelimiter/token-bucket.go:64-64 | a balance covers a cost exactly when every suffix of the history has room for it |
| History.Envelope | internal/ratelimiter/token-bucket.go:101-117 | if each charge was covered when made, any closed interval charges at most the limit plus the interval's refill |
| TokenBucket.TokenBucketRateLimiter.New | internal/ratelimiter/token-bucket.go:26-39 | a limiter exists exactly for valid policies, and starts with no bucket |
| TokenBucket.TokenBucketRateLimiter.Allow | internal/ratelimiter/token-bucket.go:41-86 | each call is one step of its own key's bucket, rejections leave every bucket alone, other keys are untouched, balances stay between empty and full |
| TokenBucket.MixedRun | internal/ratelimiter/token-bucket.go:41-86 | in any sequence of calls on any keys, cancelled and rejected ones among them, a key's answers and bucket are those of its own run |
| TokenBucket.BalanceIsHistory | internal/ratelimiter/token-bucket.go:102-117 | one balance and one timestamp agree with the balance of the whole charge history at every later time |
| TokenBucket.AdmissionLaw | internal/ratelimiter/token-bucket.go:61-85 | a request within the limit is allowed if and only if, from every earlier request on, the cost approved since plus its own is at most the limit plus what the elapsed time refills |
| TokenBucket.RunEnvelope | internal/ratelimiter/token-bucket.go:61-85 | in any run, any closed interval approves at most the limit plus the interval's refill |
| TokenBucket.RefusalsInvisible | internal/ratelimiter/token-bucket.go:64-75 | dropping any refused requests from a run changes no other answer, although denials store a refilled balance |
| TokenBucket.RemainingExact | internal/ratelimiter/token-bucket.go:124-127 | a further request at the same instant is allowed exactly up to the reported remaining |
| TokenBucket.AnswerForm | internal/ratelimiter/token-bucket.go:41-85 | which costs are which error, and what a decision reports besides: the limit, no wait when allowed, a wait when denied; a denial leaves the bucket brought up to its time |
| TokenBucket.StepBackIsStill | internal/ratelimiter/token-bucket.go:108-116 | a clock behind the last refill is answered, and leaves the bucket, as a clock standing still |
| TokenBucket.RetryHintExact | internal/ratelimiter/token-bucket.go:64-75 | after a denial, the same cost m whole milliseconds later is allowed if and only if m is at least the hint |
| TokenBucket.ResetHintExact | internal/ratelimiter/token-bucket.go:80-85 | the reported reset is the least instant from which the bucket, left alone, is full |
| TokenBucket.CreditUnderAnyClock | internal/ratelimiter/token-bucket.go:108-116 | under any clock, the total approved is at most the limit plus the refill from the first to the latest time seen; requests rejected for their cost see no time and spend nothing |
| RedisBucket.ExpiredIsFull | internal/ratelimiter/redis-token-bucket.go:72-75 | a key removed two windows or more after its last write was already full: removal changes no later balance |
| RedisBucket.BalanceIsHistory | internal/ratelimiter/redis-token-bucket.go:40-52 | the stored hash, rewritten by denials and removed on expiry, carries exactly the balance of its charges |
| RedisBucket.AdmissionLaw | internal/ratelimiter/redis-token-bucket.go:42-67 | a check within the limit is allowed if and only if the stream has room and the millisecond envelope has room from every earlier action on |
| RedisBucket.RefusalsInvisible | internal/ratelimiter/redis-token-bucket.go:54-75 | dropping any denials, backlog refusals and expiries from a run changes no other answer |
| RedisBucket.RemainingExact | internal/ratelimiter/redis-token-bucket.go:69-69 | a further check at the same instant, with room, is allowed exactly up to the reported remaining |
| RedisBucket.AnswerForm | internal/ratelimiter/redis-token-bucket.go:144-174 | which checks are which error, the covered check without room among them, and none of them writes; a decision, denials included, rewrites the key with this time and a deadline two windows on |
| RedisBucket.StepBackIsStill | internal/ratelimiter/redis-token-bucket.go:49-51 | a clock behind the last write neither adds nor loses tokens |
| RedisBucket.RetryHintExact | internal/ratelimiter/redis-token-bucket.go:65-67 | after a denial, under any clock, the same cost m milliseconds later with room is allowed if and only if m is at least the hint |
| RedisBucket.ResetHintExact | internal/ratelimiter/redis-token-bucket.go:70-70 | the reported reset is the least whole millisecond from which the bucket is full |
| BucketRefinement.RedisRefinesMemory | internal/ratelimiter/redis-token-bucket.go:140-186 | for whole-millisecond windows and times and no backlog refusals, every answer equals the in-memory bucket's, with the reset rounded up to a millisecond, whenever keys expired |
| BucketRefinement.RedisGrantsNoMore | internal/ratelimiter/redis-token-bucket.go:156-168 | for any window, the approvals of any Redis run, with denials, backlog refusals and expiries in between, are all approved by the in-memory bucket: rounding the window up grants no more |
| BucketRefinement.ApprovedThroughout | internal/ratelimiter/redis-token-bucket.go:156-168 | for any window, a run Redis approves throughout is approved throughout in memory |
| BucketRefinement.CreditUnderAnyClock | internal/ratelimiter/redis-token-bucket.go:45-52 | under any clock, the total approved is at most the limit plus the refill over the sum of forward clock steps |
| SlidingLog.SlidingLogRateLimiter.New | internal/ratelimiter/sliding-log.go:30-43 | a limiter exists exactly for valid policies |
| SlidingLog.SlidingLogRateLimiter.ActiveLog | internal/ratelimiter/sliding-log.go:104-116 | the loop removes exactly the leading requests that are a window old and subtracts their costs |
| SlidingLog.SlidingLogRateLimiter.NextAvailability | internal/ratelimiter/sliding-log.go:119-131 | the search returns the expiry of the first request by which enough cost is released |
| SlidingLog.SlidingLogRateLimiter.Allow | internal/ratelimiter/sliding-log.go:45-88 | each call is one step of its own key's log, and other keys are untouched |
| SlidingLog.MixedRun | internal/ratelimiter/sliding-log.go:45-88 | in any sequence of calls on any keys, a key's answers and log are those of its own run |
| SlidingLog.AdmissionLaw | internal/ratelimiter/sliding-log.go:62-76 | a request is allowed if and only if everything ever charged in the window that ends now, plus its cost, is within the limit |
| SlidingLog.LogIsBounded | internal/ratelimiter/sliding-log.go:78-80 | used is the sum of the retained costs, the log is in time order, and it holds at most limit requests |
| SlidingLog.ResetHintExact | internal/ratelimiter/sliding-log.go:67-76 | after a denial, absent other approvals, the same request succeeds at a later time if and only if its cost is within the limit and that time is the reset or later, which is when the full history has room |
| SlidingLog.DenialReset | internal/ratelimiter/sliding-log.go:119-131 | the forward search over the pruned log finds, told from the full history, the expiry of the newest charge from which on there is no room for the request; for a cost above the limit it reports one window from now |
| SlidingLog.RetryHintSuffices | internal/ratelimiter/sliding-log.go:74-74 | waiting the truncated hint suffices if and only if the cost is within the limit and the time until the blocking charge of the history expires is whole milliseconds or at most one |
| SlidingLog.RetryHintSize | internal/ratelimiter/sliding-log.go:74-74 | the hint is the wait the history tells, cut to whole milliseconds but at least one |
| SlidingLog.AnswerForm | internal/ratelimiter/sliding-log.go:45-87 | which cost is an error, and that every other is decided, reporting the limit and no wait when allowed |
| SlidingLog.RetryHintFallsShort | internal/ratelimiter/sliding-log.go:74-74 | a concrete run and request whose retry after the hint is denied again |
| SlidingLog.OversizedNeverFits | internal/ratelimiter/sliding-log.go:67-76 | a cost above the limit is denied with a positive hint after any run, and denied again at any other time |
| SlidingLog.OversizedHintFails | internal/ratelimiter/sliding-log.go:67-76 | a concrete request above the limit whose hint is whole milliseconds and does not work |
| SlidingLog.ApprovalResetExact | internal/ratelimiter/sliding-log.go:82-87 | after an approval, the reset is the least time at which anything in the log expires |
| SlidingLog.ApprovalResetIsFull | internal/ratelimiter/sliding-log.go:82-87 | after an approval, the reset is the least time of full capacity if and only if the history charged nothing in the window before this instant |
| SlidingLog.DenialResetIsFull | internal/ratelimiter/sliding-log.go:67-76 | after a denial, the reset is the least time of full capacity if and only if the cost with what was charged at the newest instant exceeds the limit, or, for a cost above the limit, something was charged at this instant |
| SlidingLog.ResetBeforeFull | internal/ratelimiter/sliding-log.go:82-87 | for every window longer than an instant, two approvals an instant apart: the second reports a reset one instant before capacity is full |
| SlidingLog.RemainingExact | internal/ratelimiter/sliding-log.go:65-88 | a further request at the same instant is allowed exactly up to the reported remaining |
| FixedWindow.FixedWindowRateLimiter.New | internal/ratelimiter/fixed-window.go:25-38 | a limiter exists exactly for valid policies |
| FixedWindow.FixedWindowRateLimiter.Allow | internal/ratelimiter/fixed-window.go:40-81 | each call is one step of its own key's window, denials store nothing, and other keys are untouched |
| FixedWindow.MixedRun | internal/ratelimiter/fixed-window.go:40-81 | in any sequence of calls on any keys, a key's answers and window are those of its own run |
| FixedWindow.AdmissionLaw | internal/ratelimiter/fixed-window.go:57-69 | under any clock that revisits no window, a request is allowed if and only if everything charged in its aligned window, plus its cost, is within the limit |
| FixedWindow.SafeIffNeverRevisited | internal/ratelimiter/fixed-window.go:97-105 | requests at given times keep every aligned window within the limit, whatever their costs, if and only if no window is entered again after the clock left it |
| FixedWindow.WindowWithinLimit | internal/ratelimiter/fixed-window.go:97-105 | under a clock that never steps back, no aligned window ever charges more than the limit |
| FixedWindow.BurstBound | internal/ratelimiter/fixed-window.go:57-80 | any closed interval k windows long charges at most k + 1 limits |
| FixedWindow.BurstAttained | internal/ratelimiter/fixed-window.go:97-105 | for every policy and every k some run charges k + 1 limits within k windows' length |
| FixedWindow.ClockStepsBack | internal/ratelimiter/fixed-window.go:99-102 | for every policy, a run that leaves a window and returns to it charges that window twice the limit |
| FixedWindow.ResetHintExact | internal/ratelimiter/fixed-window.go:59-69 | after a denial, the same request succeeds at a later time if and only if its cost is within the limit and that time is the reset or later |
| FixedWindow.RetryHintSuffices | internal/ratelimiter/fixed-window.go:67-67 | waiting the truncated hint suffices if and only if the cost is within the limit and the wait is whole milliseconds or at most one |
| FixedWindow.RetryHintSize | internal/ratelimiter/fixed-window.go:67-67 | the hint is the time to the end of the window, cut to whole milliseconds but at least one |
| FixedWindow.AnswerForm | internal/ratelimiter/fixed-window.go:40-80 | which cost is an error, and that every other is decided, reporting the limit, the end of the aligned window that holds the time, and no wait when allowed |
| FixedWindow.OversizedNeverFits | internal/ratelimiter/fixed-window.go:61-69 | a cost above the limit is denied with a positive hint after any run, and denied again at any other time |
| FixedWindow.OversizedHintFails | internal/ratelimiter/fixed-window.go:61-69 | a concrete request above the limit whose hint is whole milliseconds and does not work, and whose reset is later than full capacity |
| FixedWindow.ResetIsFullCapacity | internal/ratelimiter/fixed-window.go:59-80 | the reset is the least time of full capacity if and only if the cost is within the limit or the history charged something in the window before |
| FixedWindow.RetryHintFallsShort | internal/ratelimiter/fixed-window.go:67-67 | a concrete policy and request whose retry after the hint is denied again |
| FixedWindow.RemainingExact | internal/ratelimiter/fixed-window.go:61-80 | a further request at the same instant is allowed exactly up to the reported remaining |
| Domination.RollingImpliesEnvelope | internal/ratelimiter/sliding-log.go:62-88 | covering by rolling windows: if each window that ends at a request is within the limit, every span of requests is within the token bucket's envelope |
| Domination.SlidingLogIsStrictest | internal/ratelimiter/sliding-log.go:62-88 | requests the sliding log approves throughout a run are approved throughout by the token bucket and by the fixed window |
| RedisKeys.EncodeInjective | internal/ratelimiter/redis-token-bucket.go:190-191 | unpadded URL-safe base64 gives different byte strings different texts |
| RedisKeys.EncodeSpellsGroup | internal/ratelimiter/redis-token-bucket.go:190-191 | as section 5 of RFC 4648 defines it: over the written-out alphabet each group of up to three octets is spelled as the same number in sextets, filled with zero bits, and nothing else is in the text |
| RedisKeys.BucketPart | internal/ratelimiter/redis-token-bucket.go:192-192 | a bucket key is the prefix, a colon, the encoded client, a colon and the encoded resource |
| RedisKeys.RedisKeyInjective | internal/ratelimiter/redis-token-bucket.go:189-193 | for a fixed prefix, different (client, resource) pairs have different bucket keys |
| RedisKeys.DefaultStreamIsNoBucket | internal/ratelimiter/redis-token-bucket.go:13-17 | with the default names, no bucket key equals the event stream's name |
| Events.DecimalRoundTrip | internal/events/event.go:65-75 | parsing undoes printing a whole number, and fails exactly outside 64 bits |
| Events.DecimalExamples | internal/events/event.go:70-74 | a sign, leading zeros, no digits and a strange character, each with the number or the failure it gives |
| Events.DecodeExact | internal/events/event.go:14-75 | what the decoder makes of any message: the row of its named fields, or the error of the first field in reading order that is missing, empty or no number, or the range error |
| Events.CodecRoundTrip | internal/events/event.go:14-55 | the decoder accepts an encoded event if and only if it fits the table, and then yields the same client, resource, cost, time and remaining |
| Pipeline.Processor.New | internal/events/processor.go:29-44 | a worker exists exactly when the names are there and the batch size and durations are positive |
| Pipeline.Processor.EnsureGroup | internal/events/processor.go:46-52 | the group exists afterwards unless the command was lost, and an existing group keeps its cursor |
| Pipeline.Processor.ParseMessages | internal/events/persist.go:17-26 | the loop yields every row and ID, or the first message's error |
| Pipeline.Processor.InsertRows | internal/events/persist.go:34-39 | the loop applies every idempotent insert, or stops at the one that fails |
| Pipeline.Processor.PersistMessages | internal/events/persist.go:12-52 | parse all, insert all, commit, then remove exactly those IDs, with the effect and the report of every fault |
| Pipeline.Processor.PersistStreams | internal/events/processor.go:94-104 | batches in order, stopping at the first failure with the count so far |
| Pipeline.Processor.ConsumeNew | internal/events/processor.go:54-70 | the next undelivered entries become pending and are persisted; without a group the read is an error |
| Pipeline.Processor.RecoverPending | internal/events/processor.go:72-92 | the first pending entries that have been idle long enough are claimed and persisted; without a group the claim is an error |
| Pipeline.PersistIsAtomic | internal/events/persist.go:28-51 | which effect goes with which fault: nothing, the whole batch inserted, or inserted and then removed; success exactly when nothing failed |
| Pipeline.DecodeAllExact | internal/events/persist.go:17-26 | each message's row in order, or the error of the first message that has none |
| Pipeline.ClaimExact | internal/events/processor.go:73-80 | a claim returns exactly the pending, live entries it names, and forgets those whose message is gone |
| RedisLimiter.RedisServer.RunScript | internal/ratelimiter/redis-token-bucket.go:20-90 | the script's statements compute the reply and the new bucket of the single-key model, and append the event exactly when they allow |
| RedisLimiter.RedisTokenBucketRateLimiter.New | internal/ratelimiter/redis-token-bucket.go:107-138 | a limiter exists exactly for valid policies and a nonnegative backlog limit, with the defaults for prefix, stream name and backlog filled in |
| RedisLimiter.RedisTokenBucketRateLimiter.Allow | internal/ratelimiter/redis-token-bucket.go:140-186 | whatever becomes of the call, the answer and the new server state are those of the service's check step; a lost reply is an error whose effect stays |
| Service.InsertAllFacts | sql/queries/approved_requests.sql:2-12 | inserting a batch keeps every row there was and adds exactly the new IDs |
| Service.EnvironmentActs | internal/ratelimiter/redis-token-bucket.go:72-73 | time only advances, a key goes exactly from its deadline on, the group exists once ensured, a crash ends its session only |
| Service.RunKeepsInv | internal/events/persist.go:12-52 | in every reachable state the stream, the table, the group and every session agree with the history of appended events |
| Billing.NoLossNoDuplication | internal/events/persist.go:12-52 | in every reachable state each event ever appended is in the stream or the table, an ID's row is exactly its event, and no row or entry has an ID that was never appended |
| Billing.DrainedTableIsHistory | sql/queries/approved_requests.sql:2-12 | once the stream is empty the table holds every event once and nothing else |
| Billing.StreamBookkeeping | internal/events/processor.go:54-92 | in every reachable state live entries split into undelivered and pending, nothing else is pending, and the stream is within the backlog limit |
| Billing.ApprovedIffAppended | internal/ratelimiter/redis-token-bucket.go:58-88 | a check is answered allowed exactly when its event enters the stream in the same step; a backlog refusal changes nothing |
| Billing.WorkerCallsAreRuns | internal/events/processor.go:54-92 | whatever faults they meet, the worker's calls are runs of the transition system: exactly the read or claim, insert and cleanup steps the faults leave, and success exactly when nothing failed |
| Billing.EnsureGroupIsStep | internal/events/processor.go:46-52 | ensuring the group is the group's step unless the command is lost, and the group exists after it |
| Billing.PersistEachExact | internal/events/processor.go:94-104 | of the batches of one reply, from the first on, those persisted are out of the stream, in the table and counted; all of them exactly when no error is reported |
| Billing.RunMirrors | internal/ratelimiter/redis-token-bucket.go:157-168 | every run of the service, seen from one key, is a single-key run of the script with the same bucket and charges |
| Billing.KeyIsolation | internal/ratelimiter/redis-token-bucket.go:188-193 | the answer in any mixed run is the answer of the run projected onto the key, backlog room aside |
| Billing.ServiceAdmissionLaw | internal/ratelimiter/redis-token-bucket.go:42-67 | in every reachable state a check is allowed if and only if its cost is positive, the stream is shorter than the backlog limit and the envelope over the key's approvals has room; it is refused for the backlog if and only if only the stream is too long |
| Billing.AnswerExact | internal/ratelimiter/redis-token-bucket.go:140-186 | every answer of every reachable state: which error, or a decision that is allowed exactly when the envelope has room |
| Billing.BillingEnvelope | internal/events/event.go:47-54 | in every reachable state the durable rows of a key approved in any interval cost at most the limit plus the interval's refill, over the configured window and over the script's rounded one |
| Billing.DrainedBillsCharges | internal/events/persist.go:34-49 | conservation: once the stream is empty, the rows of a key in any interval cost exactly what was approved in it |
| Draining.AppendedEventsStorable | internal/events/event.go:40-45 | with limits up to 2^31-1 every event ever appended is one the decoder accepts |
| Draining.OversizedLimitBlocks | internal/events/persist.go:19-26 | with a larger limit a full-limit approval appends an event that stops every batch holding it |
| Draining.UnstorableStays | internal/events/persist.go:19-26 | in every reachable state an event the decoder rejects is still in the stream and has no row |
| Draining.NeverPoisonedIffInt32 | internal/ratelimiter/token-bucket.go:88-99 | every run of a configuration appends only events the decoder accepts if and only if every limit is at most 2^31-1 |
| Draining.ConsumeRound | internal/events/processor.go:54-70 | a fault-free call takes the first undelivered entries, up to a batch: their rows are in the table, they are out of the stream, and nothing else changed hands |
| Draining.RecoverRound | internal/events/processor.go:72-92 | whichever pending entries are idle, a fault-free call takes the first of them, up to a batch: their rows are in the table, they are out of the stream and the pending list, and every other pending entry is still there |
| Draining.ScheduleCounts | internal/events/processor.go:54-104 | after any schedule of fault-free rounds, how much is undelivered, how much is pending, and how many rounds found work |
| Draining.DrainExactly | cmd/worker/worker.go:28-52 | a schedule empties the stream exactly when it holds enough rounds of each kind, and at most ceil(undelivered/batch) + ceil(pending/batch) rounds find work |
| Draining.ReachableIsTidy | internal/events/persist.go:19-26 | every store the service reaches with 32-bit limits is one that drains |
| Draining.EveryStateDrains | cmd/worker/worker.go:28-52 | from every reachable state with 32-bit limits, ensuring the group and then three worker steps for each of ceil(undelivered/batch) + ceil(pending/batch) rounds reach an empty stream and a table that is the whole history |
| Draining.DrainedAdmits | internal/ratelimiter/redis-token-bucket.go:58-64 | with the stream empty no check is refused for the backlog |
| CircuitBreaker.CircuitBreakerLimiter.New | internal/ratelimiter/circuit-breaker.go:39-58 | a breaker exists exactly for a positive threshold and positive timeouts, and starts closed |
| CircuitBreaker.CircuitBreakerLimiter.Ready | internal/ratelimiter/circuit-breaker.go:83-88 | ready unless open for less than the timeout |
| CircuitBreaker.CircuitBreakerLimiter.StartRequest | internal/ratelimiter/circuit-breaker.go:90-109 | the new fields and the admission are those of the start step |
| CircuitBreaker.CircuitBreakerLimiter.RecordSuccess | internal/ratelimiter/circuit-breaker.go:111-118 | the success report's step |
| CircuitBreaker.CircuitBreakerLimiter.RecordFailure | internal/ratelimiter/circuit-breaker.go:120-134 | the failure report's step |
| CircuitBreaker.CircuitBreakerLimiter.CancelProbe | internal/ratelimiter/circuit-breaker.go:136-144 | the request-error report's step |
| CircuitBreaker.CircuitBreakerLimiter.Complete | internal/ratelimiter/circuit-breaker.go:68-79 | the outcome decides which report is made, and only dependency failures become unavailable |
| CircuitBreaker.RunKeepsInv | internal/ratelimiter/circuit-breaker.go:90-149 | over every interleaving: half-open iff a probe is marked, and then the call that entered it is in flight; closed iff the failures reported since the last success are below the threshold, and then the count is their number; otherwise openedAt is the last failure's time |
| CircuitBreaker.AdmittedIffReady | internal/ratelimiter/circuit-breaker.go:83-109 | in every reachable state a start is admitted if and only if ready and not half-open |
| CircuitBreaker.ReadyExact | internal/ratelimiter/circuit-breaker.go:83-88 | in every reachable state ready if and only if the failures reported since the last success are below the threshold or the last failure was reported the open timeout ago or longer |
| CircuitBreaker.SingleProbeWhenPrompt | internal/ratelimiter/circuit-breaker.go:90-149 | if every call reports within the open timeout, half-open has exactly one call in flight and no two probes overlap |
| CircuitBreaker.LateReportOverlapsProbes | internal/ratelimiter/circuit-breaker.go:136-144 | for every breaker, a run whose latest report comes exactly the open timeout after admission has two probes in flight |
| CircuitBreaker.DeadlineIsOpenTimeout | internal/ratelimiter/circuit-breaker.go:90-149 | a deadline for reports guarantees a single probe in every interleaving if and only if it is at most the open timeout |
| CircuitBreaker.SafeIffTimeoutsOrdered | internal/ratelimiter/circuit-breaker.go:43-51 | calls that report within the configured decision timeout never overlap probes if and only if it is at most the open timeout |
| CircuitBreaker.UnorderedTimeoutsAccepted | internal/ratelimiter/circuit-breaker.go:43-51 | a configuration the constructor accepts whose decision timeout does not rule out overlapping probes |
| Delivery.Allow | internal/ratelimiter/circuit-breaker.go:60-80 | one call through the breaker: the answer, the server and the breaker afterwards, for every fate of the call to Redis |
| Delivery.ReportExact | internal/ratelimiter/circuit-breaker.go:68-79 | in every reachable state the breaker counts a failure if and only if the caller is still there and the context had ended or a request that is not rejected got no reply, and a success if and only if the script replied with a decision |
| Delivery.AnsweredNeverTrips | internal/ratelimiter/circuit-breaker.go:151-156 | a check that Redis answered or the instance rejected never raises the failure count and never opens a closed breaker |
| Delivery.DeliveredExact | internal/ratelimiter/circuit-breaker.go:60-80 | in every reachable state a caller is told yes if and only if the breaker admitted it, the reply arrived and the admission law holds, and the key is then charged once; a decision is the last answer of the key's own run; an attempt not admitted is told so and changes nothing |
| Delivery.DeliveredErrors | internal/ratelimiter/circuit-breaker.go:60-80 | every error an admitted caller is told, by what was asked and what became of the call |
| Delivery.UnavailableSpends | cmd/api/check.go:57-62 | in every reachable state a check is answered 503 and charged if and only if the breaker admitted it, the script ran with room and the envelope open, and the reply was lost to a caller still there; the charge is the cost, once |
| Delivery.LostReplyCharges | internal/ratelimiter/redis-token-bucket.go:169-174 | for every service, a first check whose reply is lost is answered 503 and charged |

## Left out

- float64 and Lua number rounding, including the digits `tostring` prints: arithmetic is exact.
- HTTP handlers, JSON, request validation, metrics, configuration and environment loading.
- Sentinel failover, asynchronous replication, AOF loss windows and out-of-memory aborts.
- The script's key-type errors: bucket keys and the stream are kept apart, which `RedisKeys.DefaultStreamIsNoBucket` justifies for the default names.
- Bucket hashes with missing or unreadable fields: only the script writes them.
- Stream IDs as `ms-seq` pairs: they are naturals in order of appending.
- Field names of stream messages as text: they are an enumeration, and unknown fields are dropped.
- The owner and delivery time of a pending entry: a claim may take any pending entries; which ones are idle long enough is a parameter, and the drain results take all of them to be.
- Pipeline.Processor.RecoverPending: does not model the limit on how many entries one XAUTOCLAIM scans, which can return fewer idle entries than asked for.
- A reply of the wrong length counts as a lost reply: the script always returns five values.
- Nil arguments to constructors and context plumbing: whether a context has ended, and what becomes of a call, are parameters; the decision timeout bounds a call only as a hypothesis.
- Panics inside a limiter call, which would leave a breaker call without a report: it counts as still in flight.
- The worker's tickers, back-off and shutdown, and the stream's status endpoint.
- The three reporting queries and the generated query code, which only aggregate the table.
