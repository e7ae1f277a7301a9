# rhythm token-bucket rate limiter, modelled in Dafny

`rhythm` is a per-key token-bucket rate limiter. A `RateLimiter` keeps a map from each
key to its own `Bucket`. A bucket holds up to `size` tokens. `refill_rate` tokens come
back per whole `refill_interval`, and each admitted request spends one token. Buckets are
created full, lazily, on a key's first `request` (with the limiter's defaults) or by
`set_vip` (with custom size and rate). `prune(age)` drops buckets that have been idle
for more than `age`. Global counters record every admitted and denied request.

The project has four modules:

- `TokenBucket` (`token_bucket.dfy`) holds the bucket's fields as a value, `BucketState`.
  Its functions give refill (`Refilled`), one request (`Requested`), a run of requests
  (`Serve`) and the `set_vip` reset (`Refreshed`). Its lemmas cover what the re-anchoring
  refill guarantees: the cap, the remainder invariant, no drift, idempotence and the
  sustained-rate bound. It also has the `u32` arithmetic of the source, as written.
- `Buckets` (`bucket.dfy`) has the class `Bucket`. Its `Refill` and `Request` update its
  fields in place and are proved to move `State()` exactly as `Refilled` and `Requested` do.
- `Limiter` (`limiter.dfy`) has the class `RateLimiter<K>`, which owns a `map<K, Bucket>` and
  the global `Stats`. Each operation states the new map of bucket values (`View`) and the
  new counters.
- `Scenarios` (`scenarios.dfy`) replays the unit tests of `src/lib.rs` on `RateLimiter`
  with explicit clock readings. It uses building blocks for one key at one instant: the
  first request refills the bucket; later requests at that instant only spend tokens.

Times are natural numbers of nanoseconds. The source reads the clock with `Instant::now()`;
here every operation takes the reading as a parameter `now`. Like `Instant::duration_since`,
the elapsed time is zero when `now` is earlier than the bucket's anchor.

Where the code and its documentation disagree, the model follows the code:

- **`set_vip` on a key that already has a bucket.** The doc comment at `src/lib.rs:106`
  says the bucket "will be updated". The code (`src/lib.rs:117-131`) only inserts the new
  size and rate when the key is new. An existing bucket is refilled and re-anchored, but
  keeps its own size and rate. `Limiter.RateLimiter.SetVip` states this, and
  `Scenarios.VipOnKnownKey` shows a burst after such an upgrade still capped at the default
  size.
- **What `prune` measures.** The doc comment at `src/lib.rs:134` speaks of buckets "not
  used". The code compares `now` with `last_filled` (`src/lib.rs:156`). A request re-anchors
  `last_filled` up to one interval before the request's own time (`src/lib.rs:182-183`), so
  a bucket used a moment ago can still be dropped. `Limiter.PruneMayDropJustRequested`
  proves that a prune at the instant of a request drops the bucket whenever that leftover
  part of an interval exceeds `age`.
- **Configuration.** The code does not validate its configuration. A zero refill interval
  divides by zero at `src/lib.rs:166`, so the constructor requires a positive interval. A
  zero size or rate is accepted, as in the code: such a bucket denies every request, or
  never refills.

## Model

| member | source | states |
|---|---|---|
| `TokenBucket.Stats.Record` | src/lib.rs:94-99 | the counter matching the outcome goes up by exactly one and the other is unchanged |
| `TokenBucket.Refilled` | src/lib.rs:162-184 | a refill changes only the token count and the anchor, and never leaves more tokens than the size |
| `TokenBucket.RefillBounds` | src/lib.rs:165-183 | the cap: tokens never drop unless clipped to size, never exceed the old count plus the credit of whole intervals, and get the full credit below capacity. The remainder invariant: the new anchor is at or before `now`, `now - anchor` is the elapsed time modulo the interval (less than one interval), and on a monotone clock the anchor advances by exactly the intervals credited |
| `TokenBucket.Requested` | src/lib.rs:186-197 | a request is admitted iff the refilled bucket has a token; it spends exactly that token, keeps the refill's anchor and the parameters, and counts the outcome |
| `TokenBucket.Serve` | src/lib.rs:186-197 | a run of requests gives one outcome per request, keeps the size, rate and interval, and keeps `tokens <= size` |
| `TokenBucket.RefillAll` | src/lib.rs:162-184 | refills at a run of times keep the size, rate, interval and counters, and keep `tokens <= size` |
| `TokenBucket.ServeCounts` | src/lib.rs:186-197 | over a run of requests the bucket's own admitted counter rises by the number of admissions, and its denied counter by the rest |
| `TokenBucket.Refreshed` | src/lib.rs:130-131 | the `set_vip` reset leaves the bucket full, anchored at `now`, with its size, rate, interval and counters kept |
| `TokenBucket.AnchoredIsStable` | src/lib.rs:172-183 | a bucket anchored less than one interval before `now` is left unchanged by a refill at `now` |
| `TokenBucket.RefillIdempotent` | src/lib.rs:172-175 | refilling twice at one instant is refilling once, so repeated calls neither lose nor double credit |
| `TokenBucket.RefillComposes` | src/lib.rs:177-183 | no drift: a refill at `t1` followed by one at `t2 >= t1` equals a single refill at `t2` |
| `TokenBucket.RefillManyIsRefillOnce` | src/lib.rs:172-183 | refills at any nondecreasing run of times equal one refill at the last time |
| `TokenBucket.RefillAfterWait` | src/lib.rs:165-170 | after `k` whole intervals past the anchor the bucket holds at least `min(tokens + k * rate, size)` |
| `TokenBucket.BurstAdmitsAvailableTokens` | src/lib.rs:186-197 | `n` requests at one instant: request `i` is admitted iff `i` is less than the refilled token count |
| `TokenBucket.FullBucketAdmitsCapacity` | src/lib.rs:76-91 | a full bucket at its anchor instant admits exactly `size` requests, then denies the next |
| `TokenBucket.FullBucketBurst` | src/lib.rs:76-91 | a full bucket asked `n` times at its anchor instant admits exactly the first `size` |
| `TokenBucket.FullBucketEmpties` | src/lib.rs:76-91 | a full bucket asked `size` times at its anchor admits all of them and is left empty, at the same anchor, with its parameters, having counted `size` admissions and no denial |
| `TokenBucket.EmptyBucketRefills` | src/lib.rs:165-170 | an empty bucket refills to exactly `min(whole intervals since its anchor * rate, size)` |
| `TokenBucket.EmptiedFullBucketRefills` | src/lib.rs:165-183 | a full bucket emptied at its anchor `t0` (with one denial) stays anchored at `t0`, and at a later `t1` holds exactly `min(((t1 - t0) / interval) * rate, size)` |
| `TokenBucket.WaitRefills` | src/lib.rs:165-170 | a bucket anchored at or before `t1` holds at `t2` at least one refill per whole interval from `t1` to `t2`, capped at its size |
| `TokenBucket.WaitReadmits` | src/lib.rs:257-265 | that many requests at `t2` are all admitted |
| `TokenBucket.BurstLeaves` | src/lib.rs:186-197 | after `n > 0` requests at one instant, the bucket holds the refilled count minus the admitted requests, at the refill's anchor, with its parameters |
| `TokenBucket.RequestPaidByCredit` | src/lib.rs:165-190 | one request spends no more than the starting tokens plus the credit of the intervals passed, and the anchor moves by exactly those intervals |
| `TokenBucket.AdmissionsBounded` | src/lib.rs:162-197 | sustained rate: over any nondecreasing run of requests up to a horizon, the admitted requests plus the tokens left never exceed the starting tokens plus one refill per whole interval from the starting anchor to the horizon |
| `TokenBucket.RefreshedAdmitsNext` | src/lib.rs:130-131 | after the `set_vip` reset, a request at the same instant is admitted iff the size is positive |
| `TokenBucket.SettledRequest` | src/lib.rs:186-197 | on a bucket already refilled at `now`, a request is admitted iff a token is left; it spends only that token and keeps the anchor |
| `TokenBucket.RequestSettles` | src/lib.rs:182-183 | after any request at `now`, the bucket is anchored less than one interval before `now` |
| `TokenBucket.RefilledTokensAsWritten` | src/lib.rs:169-170 | the token count with the source's `u32` cast and `u32` add never exceeds the size |
| `TokenBucket.AsWrittenAgreesWithoutOverflow` | src/lib.rs:169-170 | without overflow, the machine arithmetic gives the model's token count |
| `TokenBucket.AsWrittenLosesLongIdleCredit` | src/lib.rs:169-170 | an empty bucket idle for 2^32 intervals stays empty as written, where the intended refill fills it |
| `Buckets.Bucket.constructor` | src/lib.rs:76-87 | a new bucket is full, anchored at `now`, with nothing counted |
| `Buckets.Bucket.Refill` | src/lib.rs:162-184 | the in-place refill moves the fields exactly as `Refilled` does, and keeps `tokens <= size` |
| `Buckets.Bucket.Request` | src/lib.rs:186-197 | the in-place request returns the outcome and leaves the fields exactly as `Requested` does |
| `Limiter.Pruned` | src/lib.rs:156 | the kept keys are exactly those whose bucket's anchor is at most `age` before `now`, with their buckets unchanged |
| `Limiter.PruneMayDropJustRequested` | src/lib.rs:153-157 | a bucket requested at `now` whose not-yet-credited part of an interval exceeds `age` is dropped by a prune at that same instant |
| `Limiter.RateLimiter.constructor` | src/lib.rs:49-60 | a new limiter keeps the given defaults, has no buckets and zero counters |
| `Limiter.RateLimiter.EntryOrInsert` | src/lib.rs:76-87 | a stored bucket is returned unchanged; a new key gets a fresh, full bucket anchored at `now`; no other key and no counter changes |
| `Limiter.RateLimiter.RequestStored` | src/lib.rs:91 | a stored bucket serves one request as `Requested`; nothing else changes |
| `Limiter.RateLimiter.Request` | src/lib.rs:73-103 | the outcome is that of `Requested` on the key's bucket, or on a full default bucket for a new key; only that key's bucket changes, to the state `Requested` leaves; the global counter matching the outcome goes up by one |
| `Limiter.RateLimiter.RequestBucket` | src/lib.rs:74-92 | the bucket part of `request`: the same outcome and new map as `Request`, with the counters untouched |
| `Limiter.RateLimiter.Tally` | src/lib.rs:94-100 | exactly the global counter matching the outcome goes up by one; the buckets are untouched |
| `Limiter.RateLimiter.RefreshStored` | src/lib.rs:130-131 | the stored bucket is refilled to its own size and anchored at `now`; nothing else changes |
| `Limiter.RateLimiter.SetVip` | src/lib.rs:114-132 | the key's bucket (a new one takes the given size and rate) becomes full and anchored at `now`; an existing bucket keeps its size, rate and interval; no other key and no counter changes |
| `Limiter.RateLimiter.Prune` | src/lib.rs:153-157 | the new map is exactly the old one restricted to buckets idle for at most `age`; the counters are kept |
| `Scenarios.RequestRefilling` | src/lib.rs:73-103 | one request on any bucket is admitted iff the refill leaves a token; the bucket is then refilled up to `now`, keeps its parameters, and is the only one changed; the counters record the outcome |
| `Scenarios.RequestSettled` | src/lib.rs:186-197 | one request on a bucket already refilled at `now` is admitted iff a token is left, spends it, and keeps the anchor |
| `Scenarios.BurstSettled` | src/lib.rs:237-239 | `n` requests at one instant on such a bucket: the first ones, as many as its tokens, are admitted, and the rest denied; the bucket and the counters change accordingly |
| `Scenarios.DrainSettled` | src/lib.rs:253-255 | `while request(key) {}` admits exactly the tokens held, then is denied once |
| `Scenarios.FreshBurst` | src/lib.rs:246-250 | a new key admits the default size at one instant; other keys' buckets are untouched |
| `Scenarios.FreshBurstThenDeny` | src/lib.rs:234-244 | a new key admits the default size at one instant, then denies; its bucket is left empty at that anchor |
| `Scenarios.DrainEmptied` | src/lib.rs:252-255 | draining at `t1` a bucket emptied at its anchor `t0` admits exactly `min(((t1 - t0) / interval) * rate, size)` |
| `Scenarios.ReadmitAfterWait` | src/lib.rs:257-265 | after a wait from `t1` to `t2`, at least one refill per whole interval of the wait, capped at the size, is admitted |
| `Scenarios.BurstWithinRefill` | src/lib.rs:257-265 | `n` requests at one instant on a stored key whose refill gives at least `n` tokens are all admitted, and the admitted counter rises by `n` |
| `Scenarios.LimiterScenario` | src/lib.rs:226-266 | `test_limiter`: the burst, the denial, the unrelated key, the drain and the readmission outcomes, and the global counters, for every size, rate and interval |
| `Scenarios.BurstThenDeny` | src/lib.rs:294-303 | `test_limiter_async`: a new key admits the default size, then denies |
| `Scenarios.SetVipFresh` | src/lib.rs:114-132 | `set_vip` on a new key creates a full bucket, anchored at `now`, with the given size and rate; nothing else changes |
| `Scenarios.RequestPairSettled` | src/lib.rs:282-291 | one request each for two distinct keys already refilled at `now`: each is admitted iff its own bucket has a token, and spends it |
| `Scenarios.RequestPair` | src/lib.rs:282-291 | the same for two stored keys |
| `Scenarios.InterleavedStored` | src/lib.rs:282-291 | alternating requests on two stored keys: each key's `i`-th request is admitted iff `i` is below its own tokens |
| `Scenarios.InterleavedBursts` | src/lib.rs:282-291 | the same when the first key holds `n` tokens: the first key is admitted every time |
| `Scenarios.VipScenario` | src/lib.rs:268-292 | `test_vip`: the VIP key is admitted on all `vipSize` requests, while the normal key is admitted exactly on its first `size` |
| `Scenarios.RequestFresh` | src/lib.rs:73-87 | a first request for a new key adds that key with a default bucket anchored at `now`, and is admitted iff the default size is positive |
| `Scenarios.VipOnKnownKey` | src/lib.rs:114-132 | `set_vip` on a key that already has a bucket: a burst of `vipSize` requests after it is admitted only on the first default-size requests |
| `Scenarios.PruneKeepsRecent` | src/lib.rs:314-316 | a prune of one stale and one recent bucket keeps just the recent one, unchanged |
| `Scenarios.PruneDropsLast` | src/lib.rs:318-320 | a prune of the last, stale bucket leaves the limiter empty |
| `Scenarios.PruneScenario` | src/lib.rs:305-321 | `test_prune`: the bucket counts are 1, then 1, then 0 |

## Left out

- The two `Mutex`es (`src/lib.rs:9`, `src/lib.rs:12`) and the thread safety they give are not modelled. Each method is one atomic step, and separate calls do not interleave.
- The clock is left out: `Instant::now()` becomes the parameter `now`, in nanoseconds, and `Duration` becomes a `nat` of nanoseconds.
- `request` reads the clock twice, once for a new bucket's anchor (`src/lib.rs:82`) and once in `refill` (`src/lib.rs:163`). `set_vip` also reads it twice (`src/lib.rs:123`, `src/lib.rs:130`). The model uses one reading per call.
- The tests' `std::thread::sleep` and their checks of `start_time.elapsed()` become conditions on the times `t0 <= t1 <= t2`. Each burst is modelled at a single instant. `Scenarios.LimiterScenario` covers the branch of `src/lib.rs:242` where the burst took less than one interval, which is the branch that asserts.
- `Scenarios.ReadmitAfterWait`, like the test, promises a lower bound of admissions counted from the start of the wait. The refills reach back to the bucket's anchor, which can be earlier.
- `Limiter.RateLimiter.constructor` requires a positive refill interval. The source accepts zero and panics dividing by zero at `src/lib.rs:166`.
- Counter widths: the `u64` counters (`src/lib.rs:32-33`) are unbounded `nat`s. Their overflow would need 2^64 requests. The `u32` token arithmetic of `src/lib.rs:169-170` is modelled unbounded in the main model, and as written in the "Findings" below.
- The `u128` products at `src/lib.rs:166-169` cannot overflow for any realistic duration. The model takes them as unbounded.
- The per-bucket counters (`src/lib.rs:28`, `src/lib.rs:191`, `src/lib.rs:194`) are kept and updated, but no code reads them, so no property is stated about them beyond their update.
- The demo programs `simple.rs`, `threads.rs`, `async.rs` and `ddos.rs`, and the `tokio` runtime of the async test, are outside the core. They only call `request` from threads or tasks, and sleep.

## Findings

| source | as written | input that shows it | evidently intended | confidence | as-written member | corrected member |
|---|---|---|---|---|---|---|
| src/lib.rs:169-170 | `tokens_to_add as u32` keeps only the low 32 bits of the credit, and `self.tokens + …` is a `u32` add that wraps in a release build (a debug build panics there) | an empty bucket of size 10, refilling 1 token per 1 ms, left idle for 2^32 ms (about 50 days): the credit 2^32 truncates to 0, so the bucket stays empty | the bucket refills to its size: `min(tokens + credit, size)` with no truncation | high that the truncation happens; not executed | `TokenBucket.AsWrittenLosesLongIdleCredit` (on `TokenBucket.RefilledTokensAsWritten`) | `TokenBucket.Refilled` (its cap and credit proved in `TokenBucket.RefillBounds`) |
