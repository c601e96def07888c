# Verified model of the Hyperliquid SDK's client and executor

A Dafny model of the parts of the SDK where timing, concurrency or arithmetic can go wrong, with proofs over every
input, every run or every interleaving. `dafny verify dfyconfig.toml` checks all of it.

| file | models |
|---|---|
| `TokenBucket.dfy` | the token bucket with one atomic iteration per poll: a class, and rate bounds over all poll sequences |
| `RefillRace.dfy` | the same bucket at the granularity of loads, stores, compare-exchanges and the mutex, any number of tasks |
| `Retry.dfy` | backoff delays and the HTTP retry loop against a reference definition |
| `HttpReply.dfy` | what one POST makes of a reply, and which replies are tried again |
| `Admission.dfy` | all calls of a client together, on the fine-grained bucket: shutdown check, semaphore, attempts, backoff, return or drop |
| `AdmissionRate.dfy` | when a client keeps the rate its configuration promises |
| `AdmissionReach.dfy` | the converse of the admission theorems: every behaviour of the retry loop happens in some run |
| `WsSession.dfy`, `WsGuarantees.dfy` | the auto-reconnecting WebSocket client as a class, its specification, and what it keeps over all runs |
| `Executor.dfy` | nonces, expiry, signing and posting as an interleaving of atomic steps |
| `ActionPipeline.dfy` | the executor's methods in place, as one caller runs them against interference |
| `Reconcile.dfy`, `ReconcileGuarantees.dfy` | the position diff, and what applying it achieves |
| `WirePrice.dfy`, `ScaleLadder.dfy` | price and size rounding, and scale-order ladders built on it |
| `AssetCache.dfy` | symbol normalisation and the asset cache against a scan |
| `Arithmetic.dfy`, `AsciiNames.dfy`, `Errors.dfy`, `Options.dfy` | division lemmas, ASCII uppercasing, the error type, options |

How the environment is represented:

- Concurrency is a state machine: an event names the task that takes its next atomic step, a run is any sequence of
  enabled events, and the theorems quantify over all runs. Clocks are part of the events; the bucket's clock is
  monotonic, the executor's may jump anywhere.
- The retry loop meets a `World`: any outcome for each POST and any result for each race between sleep and shutdown.
- The WebSocket client meets a script with one choice per await point. A script that ends leaves the call pending, so
  scripts cover every finite prefix of every behaviour.
- Decimals are integer counts of 10^-28, the finest scale the decimal type has. `Representable` says which of them
  96 bits can hold, `DividesTo` what a division may deliver, and `KeepsOrder` what a product or sum may be rounded to.
  A position's size is a real number.

## Where the code does not do what one expects

Each of these is a theorem here, with the exact condition under which the expected property holds.

- `validate` accepts rates above one per nanosecond, with which the first refill divides by zero
  (`ValidRateBreaksExactlyAboveOnePerNanosecond`).
- The refill loads and stores `tokens` under the mutex, but the decrement is outside it, so a store can overwrite a
  decrement and the bucket grants more than its rate (`ConservesTokensExactlyWhen`). With two or more permits the
  client then sends more requests than its configuration promises; one permit prevents it (`KeepsItsRateExactlyWhen`).
- The documentation of the retry loop (`crates/hl-client/src/client.rs:262-270`) says that 5xx answers are retried; one
  whose body is not JSON is final (`RetriedExactlyWhen`, `BodyDecidesAboutServerErrors`).
- A waiter that sleeps exactly a multiple of 2^32 intervals gets nothing (`LoneWaiterServedExactlyWhen`,
  `WaiterStarvesAfterWrap`).
- A failed `connect`, or a read that ends without a message, can leave a live socket with subscriptions missing
  (`HalfSubscribedSocketStaysInUse`, `ExhaustedReadLeavesHalf`, `FullySubscribedExactlyWhen`).
- The documentation of `next_message` (`crates/hl-client/src/ws/mod.rs:187-195`) says it returns `None` when the
  connection is closed; the code never does (`NextMessageNeverEnds`). The model follows the code.
- Reconciliation uppercases local coins but not the exchange's, so coins such as `kPEPE` never settle
  (`FixpointExactlyWhenUppercase`).
- The comment in the ladder loop (`crates/hl-executor/src/executor/scale.rs:82-84`) relies on monotone rungs, but
  integer prices are exempt from rounding, so above 100001 rungs can repeat undetected (`LadderSafeExactlyUpTo`,
  `PlainRequestRepeats`).
- The documentation of `place_scale_order` says the executed total may be slightly less than `total_size`; when the
  division rounds up to whole lots it is slightly more (`LadderSizeIsConserved`, `OversizedLadder`).

## Model

| member | source | states |
|---|---|---|
| `TokenBuckets.TokenBucket.constructor` | crates/hl-client/src/rate_limit.rs:57-66 | a new bucket is full, refilled now, with interval one second divided by the rate, rounded down |
| `TokenBuckets.TokenBucket.TryRefill` | crates/hl-client/src/rate_limit.rs:69-82 | the refill in place: it adds the whole intervals elapsed, modulo 2^32, up to a full bucket, and moves the last refill if there were any; it divides by zero exactly when the interval is zero and then changes nothing |
| `TokenBuckets.TokenBucket.Acquire` | crates/hl-client/src/rate_limit.rs:85-104 | the waiting loop in place: it returns at the first poll that is granted, and the bucket is then the one all those polls produce |
| `TokenBuckets.TurnedDownExactlyWhen` | crates/hl-client/src/rate_limit.rs:23-35 | which zero a configuration is turned down for |
| `TokenBuckets.ValidRateBreaksExactlyAboveOnePerNanosecond` | crates/hl-client/src/rate_limit.rs:23-35 | a rate that `validate` accepts makes the refill divide by zero if and only if it exceeds one per nanosecond |
| `TokenBuckets.RefillCredit` | crates/hl-client/src/rate_limit.rs:69-82 | one refill credits at most the whole intervals elapsed and never overfills |
| `TokenBuckets.RefillIsExact` | crates/hl-client/src/rate_limit.rs:69-82 | the bucket after a refill, in plain arithmetic |
| `TokenBuckets.StaleReadingRefillsNothing` | crates/hl-client/src/rate_limit.rs:71-73 | a clock reading older than the last refill changes nothing |
| `TokenBuckets.IdleBucketServes` | crates/hl-client/src/rate_limit.rs:69-104 | after k whole idle intervals, below 2^32, exactly `min(max_tokens, tokens + k)` polls at one instant are granted and the next is denied |
| `TokenBuckets.RateBoundFromConstruction` | crates/hl-client/src/rate_limit.rs:57-104 | with iterations that do not interleave, grants from construction to any time: at most `max_rps` plus one per whole interval, for any idle time |
| `TokenBuckets.AnchorFacts` | crates/hl-client/src/rate_limit.rs:74 | what the `as u32` cast forgets is whole multiples of 2^32 intervals, nothing else |
| `TokenBuckets.PollSettles` | crates/hl-client/src/rate_limit.rs:69-104 | after any poll less than one interval of time is left uncredited |
| `TokenBuckets.RateBoundOverEveryWindow` | crates/hl-client/src/rate_limit.rs:69-104 | with iterations that do not interleave, grants in every window [a,b], after any history: at most `max_tokens + (b-a)/interval + 1`, with no limit on the elapsed quotient |
| `TokenBuckets.WindowBoundIsReached` | crates/hl-client/src/rate_limit.rs:57-104 | every bucket `new` builds, for rates up to one per two nanoseconds, reaches that bound, so the extra one cannot be dropped |
| `TokenBuckets.LoneWaiterServedExactlyWhen` | crates/hl-client/src/rate_limit.rs:72-104 | a lone denied waiter that polls again a full interval later is served if and only if the elapsed quotient is not a multiple of 2^32 |
| `TokenBuckets.WaiterStarvesAfterWrap` | crates/hl-client/src/rate_limit.rs:57-104 | on every bucket `new` builds: drained at once and polled again 2^32 intervals later, it grants nothing |
| `TokenBuckets.LoneWaiterServedInTime` | crates/hl-client/src/rate_limit.rs:72-104 | a lone waiter is served whenever it polls again within 2^32 - 1 intervals |
| `RefillRace.StepKeepsMutualExclusion` | crates/hl-client/src/rate_limit.rs:70 | exactly the lock holder is inside the refill |
| `RefillRace.StepInv` | crates/hl-client/src/rate_limit.rs:69-104 | every single load, store, compare-exchange, lock and unlock keeps the ledger and the bounds |
| `RefillRace.RunInv` | crates/hl-client/src/rate_limit.rs:69-104 | so every interleaving of any number of tasks does |
| `RefillRace.UndisturbedIterationIsPoll` | crates/hl-client/src/rate_limit.rs:85-104 | an iteration no other task interrupts is exactly one atomic poll of the coarse model |
| `RefillRace.StoreCreditsExactly` | crates/hl-client/src/rate_limit.rs:76-78 | the store credits what was added and there was room for, exactly |
| `RefillRace.UndisturbedRefillIsExact` | crates/hl-client/src/rate_limit.rs:69-82 | an uninterrupted refill adds every whole interval elapsed, modulo 2^32, up to a full bucket |
| `RefillRace.LoserGoesRound` | crates/hl-client/src/rate_limit.rs:88-99 | a task that loses the exchange tries again without sleeping |
| `RefillRace.SleeperIsServed` | crates/hl-client/src/rate_limit.rs:85-102 | a task that slept refills before it looks again, and is served if a token is there or due |
| `RefillRace.LedgerOfEveryRun` | crates/hl-client/src/rate_limit.rs:70-99 | exact ledger of every interleaving: tokens plus grants equal burst plus credits plus overwritten decrements; tokens stay within bounds; one refill in flight at most |
| `RefillRace.GrantsOfEveryRun` | crates/hl-client/src/rate_limit.rs:69-104 | grants of every interleaving: at most the expected rate plus overwritten decrements, and in any case a full bucket per interval |
| `RefillRace.GrantBoundIsReached` | crates/hl-client/src/rate_limit.rs:69-104 | for every rate and every number of intervals, a run that is granted exactly a full bucket per interval and one more |
| `RefillRace.GrantsInEveryWindow` | crates/hl-client/src/rate_limit.rs:69-104 | grants in every window of every interleaving, after any history: a bucketful per refill stored in it and one more, and at most two refills more than whole intervals |
| `RefillRace.OneTaskOverwritesNothing` | crates/hl-client/src/rate_limit.rs:76-94 | with one task no decrement is ever overwritten |
| `RefillRace.TwoTasksExceedTheRate` | crates/hl-client/src/rate_limit.rs:76-94 | for every rate of two or more, a schedule of two tasks that is granted one more than the expected rate |
| `RefillRace.ConservesTokensExactlyWhen` | crates/hl-client/src/rate_limit.rs:76-94 | the expected rate holds over all interleavings if and only if the rate is one per second or there is at most one task |
| `Retry.SaturatingPowIsCappedPow` | crates/hl-client/src/retry.rs:55 | repeated saturating multiplication equals the power over unbounded integers, capped once |
| `Retry.DelayIsExact` | crates/hl-client/src/retry.rs:54-58 | for every u64 base, u32 factor and attempt the delay is `min(base * factor^attempt, 30000)` over unbounded integers |
| `Retry.DelayNondecreasing` | crates/hl-client/src/retry.rs:41-58 | for a validated configuration delays are positive, at most 30 s and never shrink from one attempt to the next |
| `Retry.RunFrom` | crates/hl-client/src/client.rs:299-331 | reference definition of the retry loop; it makes at least one and at most `max_retries + 1` POSTs |
| `Retry.PostWithRetry` | crates/hl-client/src/client.rs:276-336 | the loop as written (remembered error, attempt counter, unreachable fallback) returns exactly the reference result, POST count and waits, each wait being the 429 answer's own or `min(base * factor^k, 30000)` |
| `Retry.StopsAtFirstFinal` | crates/hl-client/src/client.rs:299-331 | all POSTs before the last ended retryably and uninterrupted; the last decided the result |
| `Retry.WaitsAsAsked` | crates/hl-client/src/client.rs:300-306 | wait k is the preceding 429 answer's, or else `min(base * factor^k, 30000)` milliseconds |
| `Retry.RetryLoopContract` | crates/hl-client/src/client.rs:276-336 | the whole contract of the loop for every network and scheduler: where it stops, what it returns, what it waited |
| `Retry.StoppingPointIsUnique` | crates/hl-client/src/client.rs:299-331 | no other POST count meets that contract |
| `Retry.RetriedKinds` | crates/hl-types/src/error.rs:137-149 | which errors are tried again |
| `Retry.ShutdownIsARejection` | crates/hl-client/src/client.rs:276-320 | the two rejections a shutdown leads to, neither of which is retryable |
| `Retry.DefaultWaits` | crates/hl-client/src/retry.rs:9-11 | with the default configuration, four failures wait 500, 1000 and 2000 ms |
| `Retry.BackoffBudget` | crates/hl-client/src/client.rs:300-320 | without 429 answers a call sleeps at most 30 s per retry left |
| `HttpReplies.RetriedExactlyWhen` | crates/hl-client/src/client.rs:340-404 | exactly which replies are tried again: send failures, 429, and 5xx with a JSON body |
| `HttpReplies.FinalReplyEndsTheCall` | crates/hl-client/src/client.rs:299-404 | any other reply ends the call after one POST and no wait, with the error its body and status decide |
| `HttpReplies.OtherReplyIsPostedAgain` | crates/hl-client/src/client.rs:299-404 | a retried reply leads to another POST unless retries are used up or a shutdown intervenes; a 429 waits its seconds, or one second |
| `HttpReplies.BodyDecidesAboutServerErrors` | crates/hl-client/src/client.rs:392-404 | a 502 with an HTML body is final, with a JSON body it is tried again |
| `Admission.OperationGrants` | crates/hl-client/src/rate_limit.rs:85-104 | one operation on the bucket grants a token exactly when its task gets through, and touches no other task |
| `Admission.StepInv` | crates/hl-client/src/client.rs:276-336 | every step of every call, down to single loads, stores and compare-exchanges on the bucket, keeps where-it-stands, permits and the bucket machine consistent |
| `Admission.RunInv` | crates/hl-client/src/client.rs:276-336 | so every interleaving of any number of calls does |
| `Admission.PermitsOfEveryRun` | crates/hl-client/src/client.rs:283-291 | permits held plus permits free are `max_concurrent`; POSTs in flight never exceed it; every return and every drop gives the permit back |
| `Admission.PostsPerGrant` | crates/hl-client/src/client.rs:293-333 | a token is taken once per call, so POSTs are at most `max_retries + 1` per grant |
| `Admission.PostsOfEveryRun` | crates/hl-client/src/client.rs:276-333 | POSTs by time t in every interleaving: at most `(max_retries + 1) * max_rps * (1 + (t - t0)/interval)`, and at most `max_retries + 1` times the expected rate plus the overwritten decrements |
| `Admission.PostsInEveryWindow` | crates/hl-client/src/client.rs:276-333 | POSTs in every window of every run: `max_retries + 1` per call past the bucket when it opens, at most `max_concurrent` of them, and per token granted in it, at most `max_rps * ((b-a)/interval + 3)` |
| `Admission.RunIsOnTime` | crates/hl-client/src/client.rs:300-320 | in every interleaving no retry is sent before the wait its predecessor asked for has elapsed on the clock |
| `Admission.ReturnedCallsFollowTheLoop` | crates/hl-client/src/client.rs:276-336 | a returned call gave the result and made the POSTs of the sequential retry loop on the answers it got, each retry after that loop's wait |
| `Admission.NothingStartsAfterShutdown` | crates/hl-client/src/client.rs:276-280 | after shutdown, no call still before its entry check ever POSTs or takes a permit or token; it can only be rejected or dropped |
| `Admission.ShutdownAnswersAreTrue` | crates/hl-client/src/client.rs:276-320 | in every run a call answers of its own accord, instead of with its last outcome, only if the client was shut down |
| `AdmissionReach.EveryLoopHappens` | crates/hl-client/src/client.rs:276-336 | whatever the sequential retry loop can do, some run of the client does |
| `AdmissionReach.AnyWaitCanBeAbandoned` | crates/hl-client/src/client.rs:283-291 | at every await point a call can be dropped and its permit is free at once |
| `AdmissionRate.OnePermitOverwritesNothing` | crates/hl-client/src/client.rs:283-296 | with a single permit no decrement is ever overwritten: the semaphore keeps two calls from being inside `acquire` at once |
| `AdmissionRate.TwoPermitsExceedTheRate` | crates/hl-client/src/client.rs:283-333 | for every rate of two or more and every retry limit, a run with two permits that sends one call's share of POSTs too many |
| `AdmissionRate.KeepsItsRateExactlyWhen` | crates/hl-client/src/client.rs:276-337 | POSTs stay within `(max_retries + 1) * (max_rps + (t - t0)/interval)` over all interleavings if and only if the rate is one per second or `max_concurrent` is one |
| `WsSession.HyperliquidWs.WithConfig` | crates/hl-client/src/ws/mod.rs:59-68 | a new client: no socket, no subscriptions, base delay, no heartbeat |
| `WsSession.HyperliquidWs.Send` | crates/hl-client/src/ws/mod.rs:294-308 | sending in place: refused without a socket, else recorded exactly if the socket accepted it |
| `WsSession.HyperliquidWs.ConnectNow` | crates/hl-client/src/ws/mod.rs:83-105 | `connect` in place equals its specification: fields set before the re-send, which stops at the first failure |
| `WsSession.HyperliquidWs.SubscribeTo` | crates/hl-client/src/ws/mod.rs:109-117 | the subscription is remembered first and sent second |
| `WsSession.HyperliquidWs.ReconnectWithBackoff` | crates/hl-client/src/ws/mod.rs:315-371 | the reconnect loop in place equals its recursive specification, sleeps and attempts included |
| `WsSession.HyperliquidWs.ReadNext` | crates/hl-client/src/ws/mod.rs:196-291 | the read loop in place equals its recursive specification, for every script of network events |
| `WsGuarantees.ResendDelivers` | crates/hl-client/src/ws/mod.rs:98-102 | re-sending delivers a prefix of the subscriptions, all of them exactly when it returns Ok |
| `WsGuarantees.ConnectOutcome` | crates/hl-client/src/ws/mod.rs:83-105 | a failed handshake changes nothing; otherwise a fresh socket with a prefix of the subscriptions, complete if and only if Ok |
| `WsGuarantees.DelayAfterIsCappedPower` | crates/hl-client/src/ws/mod.rs:366-367 | doubling k times under the cap is `min(d * 2^k, 30000)` |
| `WsGuarantees.FailuresDouble` | crates/hl-client/src/ws/mod.rs:315-371 | k failed handshakes cost k sleeps and k attempts, double the delay k times and change nothing else |
| `WsGuarantees.FailuresSleep` | crates/hl-client/src/ws/mod.rs:332-359 | the sleep before failure j is taken with the delay doubled j times |
| `WsGuarantees.BackoffAfterFailures` | crates/hl-client/src/ws/mod.rs:332-369 | from the base delay, k failures leave it at `min(1000 * 2^k, 30000)` and every sleep on the way has its own such value |
| `WsGuarantees.ReconnectKeepsSession` | crates/hl-client/src/ws/mod.rs:315-371 | whatever the network does: session invariant and subscriptions kept, every sleep within 1.25 of a delay in [1000, 30000], and Ok means reset and fully subscribed |
| `WsGuarantees.ReconnectTerminates` | crates/hl-client/src/ws/mod.rs:316-371 | a reconnection is pending only if the environment falls silent; with limit m and n subscriptions it ends once `m * (2 + n)` await points and one more are decided |
| `WsGuarantees.ReconnectEnds` | crates/hl-client/src/ws/mod.rs:316-371 | without cancellation and with limit m: at most m attempts, ending connected, or with "exhausted after m" once all m failed |
| `WsGuarantees.ReconnectErrors` | crates/hl-client/src/ws/mod.rs:316-371 | a reconnection fails in two ways only: cancelled, if the token was, or exhausted with the configured limit |
| `WsGuarantees.CancellationStopsTheCall` | crates/hl-client/src/ws/mod.rs:343-351 | a token that wins a backoff or a select ends the call there, with nothing tried and nothing lost |
| `WsGuarantees.CancellationComesFirst` | crates/hl-client/src/ws/mod.rs:199-203 | a cancelled token is noticed before the attempt limit |
| `WsGuarantees.JitterCoversItsRange` | crates/hl-client/src/ws/mod.rs:332 | every jitter up to a quarter of the delay is possible, and no other |
| `WsGuarantees.ConnectAnswers` | crates/hl-client/src/ws/mod.rs:83-105 | with which error `connect` fails |
| `WsGuarantees.SubscribeAnswers` | crates/hl-client/src/ws/mod.rs:109-117 | what `subscribe_raw` answers with and without a socket |
| `WsGuarantees.NextMessageNeverEnds` | crates/hl-client/src/ws/mod.rs:196-291 | reading never yields `None`, so the stream never ends; it keeps the session invariant and the subscriptions |
| `WsGuarantees.LostSocketIsDropped` | crates/hl-client/src/ws/mod.rs:241-286 | after a read error, a closed connection or a failed ping the read goes on exactly as one entered without socket and heartbeat |
| `WsGuarantees.OtherEventsKeepReading` | crates/hl-client/src/ws/mod.rs:248-274 | any other event but a message is passed over on the same socket; a message is returned |
| `WsGuarantees.ReadReconnectsFirst` | crates/hl-client/src/ws/mod.rs:206-210 | without a socket a read shakes hands and sends every subscription before it looks at anything else |
| `WsGuarantees.ReadErrors` | crates/hl-client/src/ws/mod.rs:196-291 | every error a read yields is one of those two |
| `WsGuarantees.CancelledReadsAreErased` | crates/hl-client/src/ws/mod.rs:199-203 | once the token is cancelled, the reads among any further calls change nothing and answer "cancelled": the client ends as if only the connects and subscribes had happened |
| `WsGuarantees.SessionOfEveryRun` | crates/hl-client/src/ws/mod.rs:83-117 | over all sequences of calls: subscriptions only grow by appending what was asked; socket iff heartbeat; delay in bounds; sent messages a subsequence of the subscriptions |
| `WsGuarantees.SessionFromConstruction` | crates/hl-client/src/ws/mod.rs:59-117 | so from construction on the subscriptions are exactly those asked for, in order |
| `WsGuarantees.HalfSubscribedSocketStaysInUse` | crates/hl-client/src/ws/mod.rs:92-102 | a failed `connect` can leave a live socket that misses a subscription, and the next read uses it without reconnecting |
| `WsGuarantees.ReconnectAccepts` | crates/hl-client/src/ws/mod.rs:315-371 | the socket a reconnection leaves knows exactly what its last successful handshake got across, and the outcome is Ok exactly when that was all |
| `WsGuarantees.FullySubscribedExactlyWhen` | crates/hl-client/src/ws/mod.rs:83-371 | for connect, subscribe and read alike, the exact condition on the environment under which a fully subscribed client stays so |
| `WsGuarantees.MessageKeepsSubscriptions` | crates/hl-client/src/ws/mod.rs:196-291 | a read that returns a message never loses a subscription |
| `WsGuarantees.ExhaustedReadLeavesHalf` | crates/hl-client/src/ws/mod.rs:324-369 | a read that ends exhausted can leave a live socket that misses a subscription |
| `Executor.BuildExchangePayload` | crates/hl-client/src/client.rs:413-444 | the body built in place has exactly these keys with these values, none for an unset vault or expiry, and reads back as the five parts |
| `Executor.BodyRoundTrip` | crates/hl-client/src/client.rs:413-444 | reading a body back gives all five parts; an unset vault or expiry leaves no key |
| `Executor.StepRefinesAtomicCounter` | crates/hl-executor/src/executor/mod.rs:163-169 | a successful compare-exchange is one atomic `s := max(now, s + 1)`; no other step issues a nonce |
| `Executor.AtomicIncreases` | crates/hl-executor/src/executor/mod.rs:164 | nonces of the atomic counter strictly increase and meet their own clock reading |
| `Executor.AtomicBound` | crates/hl-executor/src/executor/mod.rs:164 | the k-th nonce is at most the largest reading plus k |
| `Executor.RunInv` | crates/hl-executor/src/executor/mod.rs:157-198 | every interleaving of nonce loops, expiry updates, signing and posting keeps log, tasks and posts consistent |
| `Executor.NonceLinearizability` | crates/hl-executor/src/executor/mod.rs:157-173 | `next_nonce` is linearizable for any callers, spurious failures and a clock that jumps: strictly increasing, at least the own reading, bounded ahead; each caller holds exactly one entry, made from its own reading |
| `Executor.NoncesFollowRealTime` | crates/hl-executor/src/executor/mod.rs:157-173 | a caller that has its nonce keeps it, and it is smaller than every nonce obtained later in the run |
| `Executor.PostIsCoherent` | crates/hl-executor/src/executor/mod.rs:183-199 | a posted body decodes to exactly what its task signed |
| `Executor.SignedEqualsPostedInEveryRun` | crates/hl-executor/src/executor/mod.rs:179-211 | in every interleaving with `set_expires_after`: posted nonce, vault and expiry are the signed ones; retries are identical; two actions never share a nonce |
| `Executor.PostedExpiryIsTheOneRead` | crates/hl-executor/src/executor/mod.rs:184-185 | in every interleaving an L1 action is posted with the expiry set last before it read the register |
| `Executor.ExchangeWinsExactlyWhen` | crates/hl-executor/src/executor/mod.rs:165-171 | the exchange is won exactly when nobody was faster and it did not fail by itself; a loser reads the clock anew |
| `Executor.AnyActionCanBePosted` | crates/hl-executor/src/executor/mod.rs:179-203 | from any state an action left alone is posted with the next nonce and the current expiry, and stops if signing fails |
| `Executor.UnsignedIsNeverPosted` | crates/hl-executor/src/executor/mod.rs:186-194 | an action that failed to sign is never posted |
| `ActionPipeline.OrderExecutor.SetExpiresAfter` | crates/hl-executor/src/executor/mod.rs:277-288 | the expiry read back is the one set, zero counting as none |
| `ActionPipeline.OrderExecutor.NextNonce` | crates/hl-executor/src/executor/mod.rs:157-173 | the loop in place against interference: it wins the first round that is not lost and makes one atomic step there |
| `ActionPipeline.OrderExecutor.SendSignedAction` | crates/hl-executor/src/executor/mod.rs:179-211 | the pipeline in place: it answers if and only if some round of the nonce loop is not lost, with the nonce of the first such round; a signing failure posts nothing, otherwise the retry loop's POSTs, each coherent with its signature, and a non-ok status becomes a rejection |
| `Reconcile.ParseExchangePositions` | crates/hl-executor/src/reconcile.rs:101-140 | the filtering loop equals its specification; what it keeps is not below 1e-12 and has a coin |
| `Reconcile.IndexLocal` | crates/hl-executor/src/reconcile.rs:177-199 | the first position of each market is indexed and the later ones are closed as duplicates |
| `Reconcile.CloseUnlisted` | crates/hl-executor/src/reconcile.rs:201-214 | visiting the map in an arbitrary order closes exactly the unlisted markets, in that order |
| `Reconcile.AddAndUpdate` | crates/hl-executor/src/reconcile.rs:216-258 | one action per missing or diverged exchange position, in the exchange's order |
| `Reconcile.ReconcilePositions` | crates/hl-executor/src/reconcile.rs:153-265 | the whole report for some visiting order of the hash map |
| `ReconcileGuarantees.ParsedExactly` | crates/hl-executor/src/reconcile.rs:101-140 | parsing gives one position per live entry, in order, with the side and size of its signed size, its market and its entry price, and nothing else |
| `ReconcileGuarantees.DuplicateExactlyWhen` | crates/hl-executor/src/reconcile.rs:181-197 | a position is closed as a duplicate if and only if an earlier one has its market: the first in the list is kept |
| `ReconcileGuarantees.ClosingKeepsListedFirsts` | crates/hl-executor/src/reconcile.rs:177-214 | after the closing actions exactly the first positions of listed markets remain |
| `ReconcileGuarantees.ReconcilingSynchronises` | crates/hl-executor/src/reconcile.rs:101-258 | for uppercase coins, applying the report leaves exactly one local position per live entry of the answer, of the same sign and within a thousandth of its signed size, for every map order and every choice of ids |
| `ReconcileGuarantees.NothingToReport` | crates/hl-executor/src/reconcile.rs:177-258 | a list in that state is reported clean |
| `ReconcileGuarantees.ReportIsTruthful` | crates/hl-executor/src/reconcile.rs:177-258 | each action names what it is about: a held position and its market, a listed and unknown one, or the old local and new exchange values, which do differ |
| `ReconcileGuarantees.ReportIsComplete` | crates/hl-executor/src/reconcile.rs:216-258 | every listed position the local list lacks is reported added, every one it holds differently is reported updated |
| `ReconcileGuarantees.FixpointExactlyWhenUppercase` | crates/hl-executor/src/reconcile.rs:166-258 | reconciling the reconciled list reports nothing if and only if all exchange coins are uppercase |
| `ReconcileGuarantees.LowercaseNeverSettles` | crates/hl-executor/src/reconcile.rs:125-214 | with one coin that is not, no local list at all reconciles to an empty report |
| `ReconcileGuarantees.MixedCaseCoinIsReplaced` | crates/hl-executor/src/reconcile.rs:125-214 | on `kPEPE` an agreeing pair is closed as stale and reported missing |
| `ReconcileGuarantees.CountsBalance` | crates/hl-executor/src/reconcile.rs:166-258 | local count less closed plus added equals the exchange count, for every spelling and map order |
| `ReconcileGuarantees.ClosedExactlyWhen` | crates/hl-executor/src/reconcile.rs:177-214 | each local position is closed exactly once or kept; kept if and only if it is the first of a listed market |
| `WirePrice.HalfEvenIsNearest` | crates/hl-executor/src/executor/orders.rs:14-22 | the rounding used is to a nearest multiple, and on a tie to the even one |
| `WirePrice.RoundFiguresMono` | crates/hl-executor/src/executor/orders.rs:19 | rounding to five significant figures is monotone |
| `WirePrice.RoundPriceMeetsWireRule` | crates/hl-executor/src/executor/orders.rs:14-22 | every price comes out with few enough decimals, and an integer or of at most five figures even after the second rounding |
| `WirePrice.RoundPriceFixesExactlyWirePrices` | crates/hl-executor/src/executor/orders.rs:14-22 | a price passes unchanged if and only if it meets the rule; rounding is idempotent |
| `WirePrice.RoundPriceFixesIntegers` | crates/hl-executor/src/executor/orders.rs:16-17 | integers are never changed |
| `WirePrice.RoundPricePositiveExactlyWhen` | crates/hl-executor/src/executor/orders.rs:14-27 | exactly which prices rounding takes to zero |
| `WirePrice.DecimalPlaces` | crates/hl-executor/src/executor/orders.rs:15-21 | the unit of decimal place dp: 10^dp of them make 1 |
| `WirePrice.PerpDecimals` | crates/hl-executor/src/executor/orders.rs:15-27 | a perp price comes out as a multiple of `10^-(6 - szDecimals)`, or an integer from six size decimals on |
| `WirePrice.PerpKeepsItsDecimals` | crates/hl-executor/src/executor/orders.rs:15-27 | and a price of few figures with those decimals is left alone |
| `WirePrice.RoundPriceIsClose` | crates/hl-executor/src/executor/orders.rs:14-22 | the result is within half a unit of the fifth figure plus half a unit of the last decimal |
| `WirePrice.MonotoneExactlyUpTo` | crates/hl-executor/src/executor/orders.rs:14-22 | over all prices a 96-bit decimal can hold, rounding is monotone on [0, B] if and only if B is at most 100001 |
| `WirePrice.NearestKeepsOrder` | crates/hl-executor/src/executor/scale.rs:79-82 | rounding products and sums to a nearest decimal keeps their order, however ties are broken |
| `WirePrice.DropAbove` | crates/hl-executor/src/executor/orders.rs:14-22 | the two prices next to 100001 that break it |
| `WirePrice.RoundSizeLosesLessThanALot` | crates/hl-executor/src/executor/orders.rs:35-37 | a size becomes a multiple of the lot, never larger, by less than one lot smaller |
| `WirePrice.RoundSizeIsOdd` | crates/hl-executor/src/executor/orders.rs:35-37 | negative sizes are cut toward zero as well |
| `ScaleLadder.PlaceScaleOrder` | crates/hl-executor/src/executor/scale.rs:35-104 | which requests are accepted, which orders they become, and otherwise which rung fails first and with what error, whatever the divisions, the product and the sum deliver |
| `ScaleLadder.BuildRungs` | crates/hl-executor/src/executor/scale.rs:76-101 | the rung loop with its two early returns |
| `ScaleLadder.AdjacentChecksSuffice` | crates/hl-executor/src/executor/scale.rs:85-90 | for any nondecreasing prices up to 100001, comparing neighbours keeps all rounded prices apart |
| `ScaleLadder.AcceptedLadderIncreases` | crates/hl-executor/src/executor/scale.rs:74-101 | with `price_high` at most 100000 an accepted ladder has strictly increasing positive prices, for every order-keeping decimal arithmetic whose last product overshoots by at most 1 |
| `ScaleLadder.DividedLadderIncreases` | crates/hl-executor/src/executor/scale.rs:74-101 | which it does for every division correct to the last digit 96 bits can hold |
| `ScaleLadder.LadderSafeExactlyUpTo` | crates/hl-executor/src/executor/scale.rs:82-90 | accepted ladders of representable prices topped at or below T are strictly increasing if and only if T is at most 100001 |
| `ScaleLadder.PlainRequestRepeats` | crates/hl-executor/src/executor/scale.rs:74-101 | three orders from 100000.5 to 100001.5 are accepted and go out at 100000, 100001 and 100000 |
| `ScaleLadder.LadderSizeIsConserved` | crates/hl-executor/src/executor/scale.rs:67-73 | the rungs total more than `total_size` if and only if the division rounded up to whole lots, and then by less than one last digit each; they miss it by less than one lot or last digit each |
| `ScaleLadder.WholeTotalIsNeverExceeded` | crates/hl-executor/src/executor/scale.rs:67-73 | read off the request: a total of whole lots is never exceeded, unless the last digits of all orders together exceed a lot |
| `ScaleLadder.OversizedLadder` | crates/hl-executor/src/executor/scale.rs:67-73 | a total just under 3 split in three whose rungs do exceed it |
| `ScaleLadder.OrderLeavesExactlyWhen` | crates/hl-types/src/order.rs:238-268 | a rounded order gets past `build` if and only if its size is at least one lot and its price above half of the last decimal by a hundred-thousandth; what gets past meets the exchange's rules |
| `AssetCache.NormalizeCoin` | crates/hl-types/src/util.rs:38-57 | the suffix loop equals stripping the first matching suffix of the trimmed, uppercased symbol |
| `AsciiNames.UppercaseExactly` | crates/hl-types/src/util.rs:42 | exactly the letters a to z change, each to its capital |
| `AssetCache.TrimStripsSurroundings` | crates/hl-types/src/util.rs:39 | surrounding space is removed in full, and nothing else |
| `AssetCache.OneSuffixMatches` | crates/hl-types/src/util.rs:44-49 | no string ends with two of the suffixes |
| `AssetCache.SuffixOrderIsIrrelevant` | crates/hl-types/src/util.rs:44-49 | so the order of the suffix list does not matter |
| `AssetCache.EverySpellingNormalizesAlike` | crates/hl-types/src/util.rs:38-57 | every casing of a plain name, with -PERP, -USDC, -USD or nothing after it and space around it, normalises to its uppercase |
| `AssetCache.Load` | crates/hl-executor/src/meta_cache.rs:30-39 | the maps built entry by entry agree with a scan from the end, for all names at once |
| `AssetCache.ResolveAsset` | crates/hl-executor/src/executor/mod.rs:214-221 | the index is that of the last universe entry the symbol names, and none only if it names none |
| `AssetCache.SzDecimalsOf` | crates/hl-executor/src/meta_cache.rs:120-122 | the second uppercasing of an already normalised coin changes nothing |
| `AssetCache.LastIndexIsLast` | crates/hl-executor/src/meta_cache.rs:30-39 | that scan finds the last entry of the name, and fails only if there is none |
| `AssetCache.LastSzDecimalsIsLast` | crates/hl-executor/src/meta_cache.rs:30-39 | the size decimals are those of the last entry of the name that has any |
| `AssetCache.SameEntryExactlyWhen` | crates/hl-executor/src/meta_cache.rs:30-39 | index and size decimals describe the same entry exactly when the last entry of the name has decimals or none has |
| `AssetCache.MixedEntriesExist` | crates/hl-executor/src/meta_cache.rs:30-39 | a universe where they do not |
| `AssetCache.EverySpellingResolvesAlike` | crates/hl-executor/src/executor/mod.rs:214-221 | end to end, every spelling resolves to the last entry of that name |

## Left out

- HTTP, TLS, sockets, timers and JSON decoding: replaced by nondeterministic outcomes and scripts.
- HttpReplies.OtherReplyIsPostedAgain: parsing the Retry-After header and the JSON body. The seconds are multiplied by
  1000 modulo 2^64; a build that traps on overflow is not modelled.
- TokenBuckets.TokenBucket.Acquire: the length of the sleep between two polls is not enforced; the rate bounds hold for
  every sequence of poll times, and service is claimed only for a lone waiter. The code is not fair to several.
- TokenBuckets.RateBoundFromConstruction: refill and decrement are one step. Where tasks interleave them,
  `RefillRace.ConservesTokensExactlyWhen` and `AdmissionRate.KeepsItsRateExactlyWhen` say when the bound still holds.
- TokenBuckets.RateBoundOverEveryWindow: refill and decrement are one step. Where tasks interleave them, the bound is
  the larger one of `RefillRace.GrantsInEveryWindow`, which is not shown to be reached.
- RefillRace.LedgerOfEveryRun: atomics are sequentially consistent; what relaxed memory orders add is not modelled.
- Admission.RunInv: a future is dropped only outside the refill's critical section, which contains no await point; the
  length of the bucket's sleep is not enforced.
- Admission.NothingStartsAfterShutdown: "no retry after shutdown" is not claimed, since the select in the backoff may
  pick the timer when both are ready.
- WsGuarantees.ReconnectEnds: the attempt counter is unbounded, not 32 bits wide.
- WsSession.HyperliquidWs.ReadNext: message contents are opaque, and cancellation at any await point is a free choice,
  so a token may seem to become uncancelled; this only adds behaviours.
- Executor.NonceLinearizability: the nonce is unbounded; the stated bound shows it stays below 2^64 as long as the
  largest clock reading plus the number of calls does.
- Executor.SignedEqualsPostedInEveryRun: a signature is a record of everything hashed into it; msgpack, keccak, EIP-712
  and ECDSA are not modelled, and a task may post any number of times (`Retry` says how many).
- ActionPipeline.OrderExecutor.NextNonce: the other callers only push the nonce forward, which is what
  `Executor.NonceLinearizability` shows they do; the loop ends when the given rounds do.
- Reconcile.ReconcilePositions: the fetch of the clearinghouse state, which can fail before anything is compared.
- ReconcileGuarantees.ReconcilingSynchronises: what a caller does with an action is the model's `Apply`; the repository
  leaves it to the caller.
- WirePrice.RoundPriceMeetsWireRule: stated for all integers, including those no decimal can hold; printing and parsing
  a decimal are taken to be the identity.
- ScaleLadder.AcceptedLadderIncreases: decimal multiplication and addition are any functions that keep order and leave
  what a decimal can hold alone; which one the decimal type uses, and its overflow panics, are not modelled.
- ScaleLadder.PlaceScaleOrder: posting the orders through `bulk_order`, whose cloids and responses are not modelled.
- AssetCache.Load: the spot maps, built the same way, and index and decimals beyond 32 bits.
- AssetCache.EverySpellingNormalizesAlike: ASCII only; Unicode case mapping and white space are not modelled.
- Response parsers, `resolve_close`, `determine_status`, `market_open` and `market_close`, trigger and cancel actions,
  transfers other than their nonce discipline, the account and market crates: they would add only easy members.
