# RateX: a verified model of its admission decisions

RateX is a distributed rate limiter: any number of API instances decide, over shared Redis state or over buckets in
memory, whether a request may reach its handler. This project models the four limiters, the factory that caches
them and the middleware that uses them, and proves what they guarantee over every run.

| file | what it models |
|---|---|
| `TokenBucket.dfy`, `TokenStore.dfy` | the token bucket script as a step on one hash; the same step with key expiry, inside a Redis store and behind its Go caller |
| `SlidingWindow.dfy`, `SlidingStore.dfy` | the sliding-window script as a step on one sorted set; with expiry, store and caller |
| `FixedWindow.dfy`, `FixedWindowRace.dfy`, `FixedWindowBounds.dfy` | the INCR / EXPIRE / TTL protocol, uninterrupted, and interleaved command by command with crashes; what it admits when clocks differ |
| `MemoryBucket.dfy` | the in-memory token bucket, as a refinement of the Redis one |
| `Keys.dfy`, `Keyed.dfy`, `Identity.dfy` | the strings that name shared state, many clients over one store, and who a request is from |
| `Factory.dfy`, `FactoryRace.dfy`, `Backends.dfy` | the limiter cache, its unlocked gap, and what that race means with Redis and in memory |
| `Middleware.dfy`, `MiddlewareRace.dfy` | the handler for one request, and any number of requests at once with failing backends |
| `Prelude.dfy`, `ScriptResult.dfy`, `Expiry.dfy` | shared vocabulary, deterministic machines, the values a script returns, and keys that expire |

How the model is laid out. What the source changes in place is a class whose methods follow the source statement by
statement and are proved equal to a step function; what whole runs guarantee is proved about the step function.
Protocols with several steps are transition systems, and their theorems speak of every action sequence. A script is
one atomic step, as Redis runs it. The reading a script is given is taken in Go before the script runs, so readings
are arbitrary integers, and a theorem says so where it needs them not to decrease. Redis's own clock, which drives
expiry, is a second and independent number. A key is live until Redis's clock is past its
deadline, as Redis compares them.

## What turned out not to hold, and exactly when it does

- A policy edit can hand a client a fresh token bucket although its key names no policy: each call sets the time to
  live from the window then in force, so a key can die before a longer window's refill is over. For any set of edits,
  no run admits more than its first capacity plus what it earns if and only if each policy's key is not gone before the
  window of every policy that may follow it, and the clocks' slack, are over (`TokenStore.EditsUnobservableIff`); with
  the time to live the limiter sets, if and only if no edit more than doubles the window (`TokenStore.EditsMayDouble`;
  `TokenStore.LongerWindowBursts` is the shortest failing run). The same condition decides whether expiry shows in the
  sliding window (`SlidingStore.EditsUnobservableIff`).
- The fixed window's limit is not always kept when callers' clocks and Redis's differ. With INCRs at most E ms before
  and L ms after the window their caller computed, every window id of every run sees at most m limits if and only if
  m lives of a window and a millisecond cover window + E + L (`FixedWindowBounds.LimitsHoldIff`); the limit itself
  holds if and only if E + L is at most one millisecond (`FixedWindowBounds.LimitHoldsIffOnTime`).
- The factory's unlocked gap leaves one limiter per caller that missed before the policy was first cached
  (`FactoryRace.LimitersAreEarlyMissers`), and any number can be reached (`FactoryRace.RaceMakesMany`). With Redis no
  client can tell (`Backends.RedisHidesTheRace`). In memory a client is held to what one bucket allows if and only if
  at most one limiter is in use (`Backends.OneBucketEnoughIff`); with n of them it can get exactly n capacities at one
  instant (`Backends.MemoryRaceAttained`).
- Two clients can share a limiter key if and only if some mounted route ends in a colon and another mounted route
  (routes are called clean when none does), whatever identities clients send (`Keys.NoneShareIff`; for forwarded
  addresses `Identity.AddressesShareIff`). The routes the server mounts are clean (`Keys.MountedRoutesAreClean`).
- The memory bucket truncates its Retry-After. Every hint of every run is honest if and only if the capacity is at
  least the window in seconds (`MemoryBucket.HintsHonestIff`); one hint is, if and only if the exact wait is at most a
  second or a whole number of seconds (`MemoryBucket.HintHonestIff`). `MemoryBucket.TruncatedHintMisleads` is a run
  that misleads.
- The sliding window's Retry-After is exact under one policy. After an edit that lowers the limit it is exact if and
  only if fewer than the new limit's entries outlast the second in which the oldest one leaves
  (`SlidingWindow.RetryAfterExactIff`, `SlidingWindow.LoweredLimitMisleads`). The token bucket's is exact
  whatever was edited before.
- The fixed window's Remaining is kept if and only if no live counter of a later window, left by an instance whose
  clock is ahead, is short of that many requests (`FixedWindow.RemainingIsAPromiseIff`).
- A token bucket or sliding window under one policy refuses something if and only if its window is positive: otherwise
  the time to live it sets deletes the key after every call (`TokenStore.LimitsIffWindowPositive`,
  `SlidingStore.LimitsIffWindowPositive`). The same holds of the fixed window as long as calls run one at a time and
  their commands succeed (`FixedWindow.LimitsIffWindowPositive`; Go panics on a window of zero). Interleaved or failing
  calls change that: with a negative window a run counts some call above the limit if and only if at some moment more
  than the limit of INCRs of one window id have gone by with no EXPIRE on that key in between
  (`FixedWindowRace.NegativeExceedsIff`), so every window but zero can refuse (`FixedWindowRace.EveryWindowCanRefuse`).
  Stored policies are validated; the configuration defaults (`internal/config/config.go:31-33`) are not.
- Elapsed time bounds every segment of every run of the Redis bucket if and only if no reading ever goes back, not even
  by a millisecond (`TokenBucket.ElapsedBoundsIff`); forward movement always does (`TokenBucket.SegmentBound`).
- With readings that lag by at most D, the sliding window holds every half-open interval of a given length to its limit
  if and only if the length is at most the window less D, or, under a limit of one, at most the window whatever D
  (`SlidingWindow.BoundsIntervalsIff`).
- An expiry of two windows goes unnoticed under one policy if and only if readings and Redis's clock drift apart by at
  most one window and a millisecond between two calls (`TokenStore.TwoWindowsTolerateOne`,
  `SlidingStore.TwoWindowsTolerateOne`).
- A forwarded header that starts with a comma loses a client whose connection address is known
  (`Identity.NoIdentityIff`, `Identity.LeadingCommaLosesTheClient`).

## Model

| member | source | states |
|---|---|---|
| TokenBucket.Conservation | internal/redis/scripts.go:19-33 | Over any run, with any readings and policies: admitted + tokens left + overflow spilled = tokens at the start + rate times all forward clock movement. |
| TokenBucket.SegmentBound | internal/redis/scripts.go:19-33 | Every contiguous segment of every run admits at most the capacity at its first request plus what forward movement inside it earns, policies changing freely. |
| TokenBucket.PolicyEditsGrantNoBurst | internal/redis/scripts.go:14-33 | As long as the key lives, changing capacity and window mid-run grants no fresh burst: the run admits at most the first capacity plus earnings, and no state holds more than the capacity in force. |
| TokenBucket.RateBound | internal/redis/scripts.go:19-33 | Under one policy and nondecreasing readings every segment admits at most capacity plus what is earned between its first and last reading. |
| TokenBucket.AlternationDefeatsNetElapsed | internal/redis/scripts.go:19-20 | Alternating two readings, however close, admits n requests for every n once enough pairs have passed, while the clock never leaves a fixed interval. |
| TokenBucket.ElapsedBoundsIff | internal/redis/scripts.go:19-33 | Capacity plus what elapsed time earns bounds every segment of every one-policy run whose readings lag by at most so much, if and only if that lag is zero. |
| TokenBucket.GreedyStaysAhead | internal/redis/scripts.go:25-33 | The invariant between the script's bucket and any rival's: the script's tokens plus its lead in admissions are never below the rival's tokens. |
| TokenBucket.GreedyOptimal | internal/redis/scripts.go:19-33 | For any readings and policies, no choice of admissions whose own identically refilled bucket stays nonnegative has admitted more than the script in any prefix. |
| TokenBucket.GreedyAffordable | internal/redis/scripts.go:25-27 | The script's own decisions are such a choice, so the optimum is attained. |
| TokenBucket.RefillComposes | internal/redis/scripts.go:19-20 | Refilling to a middle reading and then on, clamping both times, is refilling once. |
| TokenBucket.RefusalsLeaveNoTrace | internal/redis/scripts.go:19-36 | Deleting any refused requests from a run with nondecreasing readings changes no reply of the others. |
| TokenBucket.ReplyShape | internal/redis/scripts.go:22-36 | Every reply carries the capacity asked with and the whole tokens left; an admission asks nobody to wait, a refusal leaves nothing and asks for at least a second. |
| TokenBucket.BatchIsSingles | internal/redis/scripts.go:8-36 | A call for n tokens is granted if and only if n calls for one at that reading would all be, and then leaves the bucket and the reply they would. |
| TokenBucket.BatchRetryExact | internal/redis/scripts.go:25-31 | A refused call for n tokens, n at most the capacity, back after k whole seconds is granted if and only if k is at least its retry_after. |
| TokenBucket.RetryAfterExact | internal/redis/scripts.go:28-31 | A refused client back after k whole seconds is admitted if and only if k is at least its retry_after. |
| TokenBucket.RetryAfterExactAmongRefusals | internal/redis/scripts.go:28-31 | The same with any refused requests of that client in between. |
| TokenBucket.RemainingIsAPromise | internal/redis/scripts.go:36 | After Remaining = n the next n requests are admitted at any readings, and of n+1 at the same reading exactly n. |
| TokenStore.RedisHashes.Eval | internal/redis/scripts.go:4-36 | The script, statement by statement, leaves the store and returns the values of the step function, expiry and deletion by PEXPIRE included, and touches no other key. |
| TokenStore.RateOf | internal/limiter/token_bucket.go:27-31 | The refill rate earns exactly the capacity in one window; a window that is not positive counts as a minute. |
| TokenStore.TokenBucketLimiter.Allow | internal/limiter/token_bucket.go:23-40 | A capacity that is not positive is refused without touching Redis; a failed call is an error and changes nothing; otherwise the reply and the store are those of one script step on the prefixed key with this reading, capacity, rate and a life of two windows, and the result carries the capacity, the window, and a wait only when refused. |
| TokenStore.RepliesTellCapacities | internal/redis/scripts.go:22-36 | In every run on the expiring store, from any state and across edits, each reply carries the capacity its call passed, and a wait of at least a second if and only if it is a refusal. |
| TokenStore.FullAfterWindow | internal/limiter/token_bucket.go:31-32 | A bucket left alone for a whole window is full again. |
| Expiry.SameAnswersFrom | internal/limiter/token_bucket.go:32 | For any script: if a call does not need what a key held by the time that key may be gone, an expiring store and a lasting one answer every continuation alike. |
| TokenStore.EditsUnobservableIff | internal/limiter/token_bucket.go:32-35 | For any set of policy edits and readings in any order: expiry is unobservable over all paced runs, and no run admits more than its first capacity plus earnings, if and only if each policy's key is not gone before every following policy's window and the slack are over. |
| TokenStore.EditsMayDouble | internal/limiter/token_bucket.go:32-35 | With the time to live Allow sets and clocks in step, that is if and only if no edit more than doubles the window. |
| TokenStore.LongerWindowBursts | internal/limiter/token_bucket.go:32-35 | Two calls, the window edited from a second to an hour in between, both admitted though the bound is below two. |
| TokenStore.ExpiryUnobservableIff | internal/limiter/token_bucket.go:32 | Under one policy, for any time to live and slack: expiry is unobservable over all paced runs if and only if the key is not gone before a window and the slack are over. |
| TokenStore.TwoWindowsTolerateOne | internal/limiter/token_bucket.go:32 | The two windows Allow asks for tolerate a slack of one window and a millisecond, and no more. |
| TokenStore.RefusalsLeaveNoTraceOnRedis | internal/redis/scripts.go:19-36 | On the expiring store too: with a key that outlives its window and the clocks' drift, deleting any refused calls changes no reply of the others. |
| TokenStore.LimitsIffWindowPositive | internal/limiter/token_bucket.go:28-35 | The bucket refuses something in some run if and only if its window is positive. |
| ScriptResult.ParseEncoded | internal/limiter/token_bucket.go:42-63 | Go reads back exactly the reply the script encoded, whatever follows the fourth value. |
| ScriptResult.ParseReads | internal/limiter/token_bucket.go:42-63 | Parsing fails if and only if there are fewer than four values or one of the first four is not accepted; otherwise the fields are those values in the script's order, and only 1 means allowed. |
| SlidingWindow.LogIsAdmittedWindow | internal/redis/scripts.go:47-54 | With nondecreasing readings and one policy the sorted set after every step is the admitted history inside the half-open window ending at the latest reading. |
| SlidingWindow.AdmittedIffRoom | internal/redis/scripts.go:47-54 | A request is admitted if and only if the window it closes holds fewer than limit earlier admissions. |
| SlidingWindow.RemainingCountsWindow | internal/redis/scripts.go:47-54 | An admission's reply carries the limit, and as Remaining the limit less the earlier admissions in the window it closes, less one. |
| SlidingWindow.ReplyAccounts | internal/redis/scripts.go:50-63 | Every reply carries the limit asked with; an admission's limit is what remains, itself and the entries found, and it asks nobody to wait; a refusal leaves nothing and asks for at least a second. |
| SlidingWindow.LaggedWindowBound | internal/redis/scripts.go:47-54 | If no reading lags by more than D, every half-open interval shorter than the window by D holds at most limit admissions, anywhere over the run. |
| SlidingWindow.BoundsIntervalsIff | internal/redis/scripts.go:47-54 | For any lag and interval length: all such intervals of all such runs hold at most limit admissions if and only if the length is at most the window less the lag, or, under a limit of one, at most the window. |
| SlidingWindow.WindowBound | internal/redis/scripts.go:47-54 | With nondecreasing readings, every half-open interval of one window, anywhere over any such run, holds at most limit admissions. |
| SlidingWindow.NeverOutgrows | internal/redis/scripts.go:47-51 | For arbitrary readings the sorted set never holds more than limit entries. |
| SlidingWindow.GreedyOptimal | internal/redis/scripts.go:47-54 | No rival choice with at most limit in every half-open window has admitted more than the script in any prefix. |
| SlidingWindow.GreedyRespects | internal/redis/scripts.go:47-54 | The script is itself such a choice, so the optimum is attained. |
| SlidingWindow.PruneComposes | internal/redis/scripts.go:47 | Pruning at an earlier and then a later reading is pruning at the later one. |
| SlidingWindow.RefusalsLeaveNoTrace | internal/redis/scripts.go:47-63 | Deleting any refused requests from a steady run changes no reply of the others. |
| SlidingWindow.OldestLeaves | internal/redis/scripts.go:56-61 | Pruning makes room if and only if the oldest score is due. |
| SlidingWindow.RetryAfterExactIff | internal/redis/scripts.go:56-63 | For any sorted set: a refused client is admitted after exactly those whole seconds k that are at least its retry_after, if and only if fewer than limit entries outlast the second in which the oldest one leaves. |
| SlidingWindow.LoweredLimitMisleads | internal/redis/scripts.go:56-63 | A log left by a higher limit whose hint is five seconds, after which the client is refused again. |
| SlidingWindow.RetryAfterExactInRuns | internal/redis/scripts.go:56-63 | The same at any point of any run from an empty store under one policy, with any refused requests in between. |
| SlidingWindow.RemainingIsAPromise | internal/redis/scripts.go:50-54 | After Remaining = n the next n requests are admitted at any readings, and of n+1 fresh ones at the same reading the last is refused. |
| SlidingStore.RedisSortedSets.Eval | internal/redis/scripts.go:40-63 | The script leaves the store and returns the values of the step function, expiry and deletion by PEXPIRE included, and touches no other key; any window. |
| SlidingStore.RedisSortedSets.Decide | internal/redis/scripts.go:47-63 | The script's statements on the sorted set yield the step function's set and values. |
| SlidingStore.RedisSortedSets.First | internal/redis/scripts.go:56 | ZRANGE 0 0 returns the lowest score. |
| SlidingStore.SlidingWindowLimiter.Allow | internal/limiter/sliding_window.go:24-32 | A failed call is an error and changes nothing; otherwise reply and store are those of one script step with this reading and member, the window in ms and a life of two windows, and the result carries the limiter's limit and window and accounts for the entries found. |
| SlidingStore.RepliesTellLimits | internal/redis/scripts.go:47-63 | In every run on the expiring store, from any state and across edits, each reply carries the limit its call passed, and an admission accounts for all of it. |
| SlidingStore.EditsUnobservableIff | internal/limiter/sliding_window.go:26-27 | For any set of policy edits expiry is unobservable over all paced runs if and only if each policy's key is not gone before every following policy's window and the slack are over. |
| SlidingStore.ExpiryUnobservableIff | internal/limiter/sliding_window.go:26-27 | Under one policy, if and only if the key is not gone before a window and the slack are over. |
| SlidingStore.TwoWindowsTolerateOne | internal/limiter/sliding_window.go:26 | The two windows Allow asks for tolerate a slack of one window and a millisecond, and no more. |
| SlidingStore.RefusalsLeaveNoTraceOnRedis | internal/redis/scripts.go:47-63 | On the expiring store too: with a key that outlives its window and the clocks' drift, deleting any refused calls changes no reply of the others. |
| SlidingStore.LimitsIffWindowPositive | internal/limiter/sliding_window.go:26-27 | The log refuses something in some run if and only if its window is positive. |
| MemoryBucket.MemoryTokenBucket.Allow | internal/limiter/memory.go:29-63 | Under the mutex, the map changes only at the key and only as the memory step says, whose reply is returned; it carries capacity and window, a wait only when refused, and never admits without a positive capacity. |
| MemoryBucket.NegativeWindowNeverRefills | internal/limiter/memory.go:39-47 | With a negative window a run in order admits at most the tokens it began with. |
| MemoryBucket.StepsAgree | internal/limiter/memory.go:39-53 | From matching buckets one memory step and one script step leave matching buckets and agreeing replies. |
| MemoryBucket.MemoryRefinesRedis | internal/limiter/memory.go:39-62 | Fed the same nondecreasing readings the two agree at every step of every run on Allowed, Remaining and Limit, and on a refusal the script's Retry-After is memory's or one second more. |
| MemoryBucket.HintHonestIff | internal/limiter/memory.go:49-52 | A client that waits exactly the memory hint is admitted if and only if the exact wait is at most a second or a whole number of seconds. |
| MemoryBucket.HintsHonestIff | internal/limiter/memory.go:39-52 | Every refusal of every run has an honest hint if and only if the capacity is at least the window in seconds. |
| MemoryBucket.TruncatedHintMisleads | internal/limiter/memory.go:49-52 | Two requests per three seconds, both taken: the third is told one second and refused after it. |
| MemoryBucket.RefusalsLeaveNoTrace | internal/limiter/memory.go:39-54 | Deleting any refused requests from a steady run changes no reply of the others. |
| FixedWindow.FixedWindowLimiter.Allow | internal/limiter/fixed_window.go:22-53 | Reply, errors and store for every pattern of failing commands and every window but zero, on which Go panics: a failed INCR changes nothing, a failed EXPIRE leaves a counter without a deadline, a negative window deletes it. |
| FixedWindow.GoQuotient | internal/limiter/fixed_window.go:24 | The window id is Go's truncated quotient, for windows of either sign. |
| FixedWindow.StepIsCommands | internal/limiter/fixed_window.go:24-36 | One client's counters by window id evolve as Allow's commands change the store of all keys, since distinct windows have distinct keys. |
| FixedWindow.ClientsAreIsolated | internal/limiter/fixed_window.go:24-35 | On clean routes, what one client sees of any interleaved run of all clients' uninterrupted calls, under keys with window ids, is exactly its own run. |
| FixedWindow.RefusalsLeaveNoTrace | internal/limiter/fixed_window.go:27-52 | Deleting any refused requests from a steady run of uninterrupted calls changes no reply of the others: a counter past the limit stays past it. |
| FixedWindow.RemainingIsAPromiseIff | internal/limiter/fixed_window.go:42-51 | After Remaining = n every continuation of n requests is admitted, across any window boundary, if and only if n is zero or no live counter of a later window is short of n. |
| FixedWindow.RemainingIsExact | internal/limiter/fixed_window.go:42-51 | Of n+1 further requests at the same instant the last is refused. |
| FixedWindow.LimitsIffWindowPositive | internal/limiter/fixed_window.go:24-35 | With calls one at a time whose commands all succeed, and a window that is not zero: some count in some run exceeds the limit if and only if the window is positive. |
| FixedWindowRace.AloneIsCommands | internal/limiter/fixed_window.go:22-37 | A call no other interrupts does in the interleaving model what the uninterrupted one says. |
| FixedWindowRace.RunKeepsConsistent | internal/limiter/fixed_window.go:27-36 | In every reachable state, for a window of either sign and whatever crashed after INCR, the counts handed out in each life of a key are exactly 1, 2, 3 and so on, and the counters agree. |
| FixedWindowRace.MinOfLifeWithin | internal/limiter/fixed_window.go:47 | Of the n calls counted in one life exactly min(n, limit) have a count within the limit. |
| FixedWindowRace.CallsHoldDistinctCounts | internal/limiter/fixed_window.go:27 | In every interleaving two calls that counted in the same life of a key hold different counts. |
| FixedWindowRace.UnusedWindowIsOpen | internal/limiter/fixed_window.go:24-36 | Wherever calls stopped or crashed, the first INCR for an unused window is counted 1: no crash blocks a later window. |
| FixedWindowRace.NegativeCounts | internal/limiter/fixed_window.go:27-36 | With a negative window a counter counts the INCRs since the last EXPIRE on its key, in every reachable state. |
| FixedWindowRace.NegativeExceedsIff | internal/limiter/fixed_window.go:24-47 | With a negative window a run counts some call above the limit if and only if at some moment more than limit INCRs of one window id have gone by with no EXPIRE on that key in between. |
| FixedWindowRace.EveryWindowCanRefuse | internal/limiter/fixed_window.go:27-36 | For every window but zero and every limit, calls that count before any EXPIRE succeeds are counted above the limit. |
| FixedWindowBounds.LivesFit | internal/limiter/fixed_window.go:24-36 | With INCRs that near their windows, the lives of a key, a window and a millisecond each, fit into the time in which it can be counted, and it admits at most the limit per life. |
| FixedWindowBounds.LimitsHoldIff | internal/limiter/fixed_window.go:23-47 | For any bounds on how early and late INCRs may run, and any m: every window id of every run sees at most m limits if and only if m lives cover the window and both bounds. |
| FixedWindowBounds.OneLimitPerAlignedWindow | internal/limiter/fixed_window.go:24-47 | With every INCR inside its window, at most limit admissions of a client fall in an aligned window. |
| FixedWindowBounds.TwoLimitsPerWindow | internal/limiter/fixed_window.go:24-47 | And at most twice the limit in any interval as long as a window. |
| FixedWindowBounds.IntervalBound | internal/limiter/fixed_window.go:24-47 | For any bounds on the skew: an interval of length T sees at most (ceil((T + early + late) / W) + 1) times the lives that fit times the limit; with none, (ceil(T / W) + 1) times the limit. |
| FixedWindowBounds.LimitHoldsIffOnTime | internal/limiter/fixed_window.go:23-36 | Every window of every run keeps to its limit if and only if INCRs are off by at most one millisecond, early and late together. |
| Keys.DecimalInjective | internal/limiter/fixed_window.go:25 | Different integers print differently. |
| Keys.CacheKeyInjective | internal/middleware/rate_limit.go:35 | Different algorithm, limit, window or burst give different factory keys, whatever the algorithm string contains. |
| Keys.ClientKeyInjective | internal/middleware/rate_limit.go:118 | On clean routes different (identity, route) pairs give different limiter keys, whatever identities contain. |
| Keys.NoneShareIff | internal/middleware/rate_limit.go:118 | For any set of routes: no two clients share a key on them if and only if no route ends in a colon and another of the routes. |
| Keys.MountedRoutesAreClean | cmd/server/main.go:106-108 | The routes the middleware is mounted on meet that condition. |
| Keys.WindowKeyInjective | internal/limiter/fixed_window.go:25 | On clean routes different (identity, route, window id) triples give different fixed window keys. |
| Keyed.Isolation | internal/middleware/rate_limit.go:118 | For any limiter, what one key sees of any interleaved run over all keys is exactly its own run. |
| Keys.ClientsAreIsolated | internal/middleware/rate_limit.go:118 | The same for clients of the token bucket, the sliding window and the memory bucket on clean routes, any identities included, under the key strings the middleware and the limiters build. |
| Identity.TrimSpaceSkips | internal/middleware/rate_limit.go:181-182 | TrimSpace removes exactly the blanks around a text. |
| Identity.HeaderKeyWins | internal/middleware/auth.go:33-38 | The key in X-API-Key is the request's key, blanks around it removed, whatever Authorization holds. |
| Identity.BearerIsFallback | internal/middleware/auth.go:25-38 | Without an X-API-Key header the bearer token is the key, blanks around it removed. |
| Identity.KeylessIff | internal/middleware/auth.go:25-38 | No key is extracted if and only if X-API-Key is blank and Authorization bears no token that is not; otherwise the one the headers carry is. |
| Identity.KeyHolderIsKnown | internal/middleware/rate_limit.go:172-178 | A request with a known key is its holder, with that key's id, prefix and own policy, whatever addresses it comes with; with an unknown one it has no identity. |
| Identity.DirectClientIsItsAddress | internal/middleware/rate_limit.go:180-187 | With neither key nor forwarded header a request is its connection address, without a policy. |
| Identity.ForwardedNamesTheClient | internal/middleware/rate_limit.go:180-187 | Without a key, the first entry of the forwarded header names the client, whatever blanks surround it and whatever proxies follow; the connection address is ignored. |
| Identity.UsualBlanks | internal/middleware/rate_limit.go:181-182 | A concrete header with spaces, a tab and a line end around its entries names the client. |
| Identity.NoIdentityIff | internal/middleware/rate_limit.go:180-186 | A request without an API key has no identity if and only if its forwarded header leads with a comma, or is blank with no connection address. |
| Identity.LeadingCommaLosesTheClient | internal/middleware/rate_limit.go:181-186 | A concrete header that loses a client whose address is known. |
| Identity.KindsNeverShare | internal/middleware/rate_limit.go:171-187 | A request that carries a known API key and one that carries none never share a limiter key, on any routes. |
| Identity.HoldersShareIff | internal/middleware/rate_limit.go:172-178 | On clean routes two requests that carry known API keys share a limiter key if and only if these are one stored key's and the routes are one. |
| Identity.DirectClientsShareIff | internal/middleware/rate_limit.go:180-187 | On clean routes two requests with neither key nor forwarded header share a limiter key if and only if their connection addresses and routes are equal. |
| Identity.AddressesShareIff | internal/middleware/rate_limit.go:118 | For any set of routes: no two addresses a forwarded header can carry share a key if and only if no route is the tail of an address, a colon, and another of the routes. |
| Factory.KeyOfInjective | internal/middleware/rate_limit.go:35 | Different policies have different cache keys in one factory. |
| Factory.AlgorithmsOnRedis | internal/middleware/rate_limit.go:57-67 | On Redis each stored algorithm gets its own limiter with the policy's values; a burst that is not positive counts as the limit. |
| Factory.LimiterFactory.FromPolicy | internal/middleware/rate_limit.go:34-73 | In memory always a memory bucket, on Redis the limiter of the policy's algorithm or else a token bucket, each with the policy's own limit, window and burst (or limit, for a burst that is not positive). A cached limiter is returned and nothing changes; a missing one is cached under its key only. |
| FactoryRace.EveryoneGetsTheirParameters | internal/middleware/rate_limit.go:34-73 | In every interleaving a cached limiter carries the parameters its key encodes, and every finished caller holds one with the parameters it asked for. |
| FactoryRace.PoliciesNeverShareALimiter | internal/middleware/rate_limit.go:35-54 | Callers of different policies never hold the same limiter, so in memory an edited policy starts with fresh buckets. |
| FactoryRace.LimitersAtMostEarlyMissers | internal/middleware/rate_limit.go:36-72 | A cached entry is never removed, and the limiters ever made for its policy number at most the callers that had missed by then. |
| FactoryRace.LimitersAreEarlyMissers | internal/middleware/rate_limit.go:36-72 | Once those who missed have finished, the limiters made and in use are exactly one per caller that missed before the policy was first cached. |
| FactoryRace.LookupGetsLastInsert | internal/middleware/rate_limit.go:36-72 | The last insert wins: until the next one for that policy every new caller is given the inserted limiter. |
| FactoryRace.QuietForever | internal/middleware/rate_limit.go:36-72 | Once those callers have finished the mapping never changes again. |
| FactoryRace.RaceMakesMany | internal/middleware/rate_limit.go:36-41 | For every n, n callers that miss together leave with n limiters, each with its own. |
| FactoryRace.FactoryKeyInjective | internal/middleware/rate_limit.go:35 | The race theorems' condition on the key holds of the key FromPolicy formats. |
| Backends.RedisHidesTheRace | internal/middleware/rate_limit.go:56-72 | With Redis every interleaving of callers and requests gives the replies of a factory that holds its lock throughout. |
| Backends.AloneIsAtomic | internal/middleware/rate_limit.go:34-73 | A caller that runs alone leaves the cache as a factory that holds its lock throughout would. |
| Backends.OneLimiterBound | internal/limiter/memory.go:39-47 | One memory limiter admits at most its capacity plus what it earns over any interval. |
| Backends.LimitersBound | internal/middleware/rate_limit.go:44-54 | K memory limiters serving one client admit together at most K times what one may. |
| Backends.MemoryRaceBound | internal/middleware/rate_limit.go:36-54 | In memory, a client of one policy is admitted over any interval at most K times the whole requests in capacity + rate * T, both built from that policy, K being the callers that missed before it was cached. |
| Backends.MemoryRaceAttained | internal/middleware/rate_limit.go:36-54 | For every n there is a race after which one client gets exactly n times the capacity at one instant. |
| Backends.OneBucketEnoughIff | internal/middleware/rate_limit.go:36-54 | After any race, every run keeps the single-bucket bound if and only if at most one limiter was handed out, which once all have finished means at most one caller missed. |
| Middleware.WhoDecides | internal/middleware/rate_limit.go:105-117 | On a route with its own policy that policy's limiter decides, whatever the callers' keys have; elsewhere the key's, and without either the default; a failed route lookup counts as none. |
| Middleware.RateLimit.Handle | internal/middleware/rate_limit.go:89-154 | Case by case: the response is that of the route policy's limiter, else the key policy's, else the default, on the key of identity and route; counters and failure mode follow; a request without identity is unauthorized and reaches no limiter. |
| Middleware.RateLimit.Answer | internal/middleware/rate_limit.go:119-154 | An error, a refusal and an admission each move one counter; the response is the route's handler without headers or status 503 by failure mode, status 429, or the handler, with the limiter's own reply in the headers. |
| Middleware.HandleIsOneSchedule | internal/middleware/rate_limit.go:95-154 | A request that runs alone in the concurrent model ends, and moves the counters, as Handle does. |
| MiddlewareRace.BooksBalance | internal/middleware/rate_limit.go:95-154 | In every reachable state, whatever fails: requests = allowed + rejected + errors + identity failures + undecided, each counter counting exactly the requests decided its way. |
| MiddlewareRace.ServedAreAdmitted | internal/middleware/rate_limit.go:118-154 | Every limiter call followed by a handler on the strength of its reply is an admission in the limiter's own uninterrupted run. |
| MiddlewareRace.HandlersBound | internal/middleware/rate_limit.go:119-154 | Handler invocations number at most the limiter's admissions, plus at most the errors when the failure mode is open; otherwise no handler runs after an error. |
| MiddlewareRace.HandledWithinEarnings | internal/middleware/rate_limit.go:118-154 | Behind a token bucket, for readings in any order and any edits, the requests handled on the strength of any contiguous calls number at most the capacity at the first plus what forward movement earns from there. |
| MiddlewareRace.HandledAtTokenRate | internal/middleware/rate_limit.go:118-154 | Under one policy and with readings in order, at most capacity plus what is earned from the first reading to the last. |
| MiddlewareRace.HandledWithinWindow | internal/middleware/rate_limit.go:118-154 | Behind a sliding window under one policy, with readings that lag by at most D, every half-open interval of the window less D holds at most limit requests handled on the strength of a reply. |

## Left out

- Floating point: token counts, rates and waits are reals, where Lua and Go use doubles; Lua's formatting of stored tokens and the truncation of reply values (the floor is modelled) are not part of this model.
- Integer width: limits, windows and clocks are unbounded; durations are whole seconds, as policies store them.
- Redis itself: each command or script is one atomic step, a failed one has no effect, except that a reply may be lost after the step (`MiddlewareRace`); eviction, replication and timeouts are not modelled.
- How go-redis encodes a missing TTL: `FixedWindow.FixedWindowLimiter.Allow` takes whatever TTL answers as a parameter, and no claim is made about ResetAfter.
- toInt on strings: the scripts return integers, anything else counts as not accepted.
- Policies with a limit, capacity or window below one: most run theorems assume at least one, as `internal/service/policy_service.go:50-55` and the table constraints ensure for stored policies; the methods and the three LimitsIffWindowPositive lemmas do not.
- MemoryBucket.MemoryTokenBucket.Allow: a capacity or window of exactly zero, where Go divides floats by zero and goes on with infinities and NaN; negative ones are modelled.
- MemoryBucket.BackwardClockParts: hypothetical, since Go subtracts monotonic readings of one process; it shows why the refinement asks for readings in order.
- Member ids of the sliding window are assumed fresh, as version 4 UUIDs are meant to be.
- MiddlewareRace.HandledWithinWindow: speaks of one client's calls under one policy; several clients follow by `Keyed.Isolation`. The limiter call is one step there, so the fixed window's own interleavings are in `FixedWindowRace` only.
- Factory.LimiterFactory.FromPolicy: modelled without interference as a method, and with its unlocked gap as a transition system in `FactoryRace`.
- LimiterFactory.Default: a call of FromPolicy with configured values.
- HTTP plumbing: header writing, status bodies, route matching, CORS, recovery, admin authentication and health checks; the route and headers are parameters.
- API key hashing and the SQL repositories: a lookup is a function from raw keys to an optional key and policy.
- recordEvent and the latency histogram: best-effort telemetry without a guarantee to prove.
- The frontend, deployment files and command line: no admission logic.
