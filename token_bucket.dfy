/**
 * The state of one token bucket and the arithmetic of refilling it, as values.
 *
 * Times are natural numbers of nanoseconds: the clock reading that the
 * source takes with `Instant::now()` is an explicit `now` parameter here.
 * The classes in the other modules update their fields exactly as these
 * functions say, and the lemmas below are what the re-anchoring design of
 * the refill buys: no drift, no double credit, a sustained-rate bound.
 */
module TokenBucket {

  /** Admitted and denied counts (`RateLimiterStats`). */
  datatype Stats = Stats(requestsAllowed: nat, requestsDenied: nat) {

    function Total(): nat {
      requestsAllowed + requestsDenied
    }

    /** Counts one more request: exactly one counter goes up, the one matching the outcome. */
    function Record(allowed: bool): (r: Stats)
      ensures r.Total() == Total() + 1
      ensures r.requestsAllowed == requestsAllowed + (if allowed then 1 else 0)
      ensures r.requestsDenied == requestsDenied + (if allowed then 0 else 1)
    {
      if allowed then this.(requestsAllowed := requestsAllowed + 1)
      else this.(requestsDenied := requestsDenied + 1)
    }
  }

  const NoRequests := Stats(0, 0)

  /** The fields of a bucket: capacity, current tokens, refill parameters, anchor time, counters. */
  datatype BucketState = BucketState(
    size: nat,
    tokens: nat,
    refillRate: nat,
    refillInterval: nat,
    lastFilled: nat,
    counters: Stats)
  {
    /** The invariant every bucket of a limiter keeps. */
    predicate Valid() {
      refillInterval > 0 && tokens <= size
    }
  }

  /** A bucket as the limiter creates it for a new key: full, anchored at `now`, nothing counted. */
  function Full(size: nat, refillRate: nat, refillInterval: nat, now: nat): BucketState {
    BucketState(size, size, refillRate, refillInterval, now, NoRequests)
  }

  /** Same capacity, refill rate and refill interval. */
  predicate SameParams(a: BucketState, b: BucketState) {
    a.size == b.size && a.refillRate == b.refillRate && a.refillInterval == b.refillInterval
  }

  /** The outcomes of `n` requests at one instant on a bucket that holds `t` tokens then: admitted while tokens last. */
  function Admitted(n: nat, t: nat): seq<bool> {
    seq(n, i => i < t)
  }

  function Min(a: nat, b: nat): nat {
    if a <= b then a else b
  }

  /** Time from `earlier` to `now`; zero when `now` is earlier (`Instant::duration_since` saturates). */
  function Elapsed(earlier: nat, now: nat): nat {
    if earlier <= now then now - earlier else 0
  }

  /** Whole refill intervals since the bucket's anchor. */
  function IntervalsPassed(s: BucketState, now: nat): nat
    requires s.refillInterval > 0
  {
    Elapsed(s.lastFilled, now) / s.refillInterval
  }

  /** Tokens the elapsed whole intervals are worth, before the cap. */
  function Credit(s: BucketState, now: nat): nat
    requires s.refillInterval > 0
  {
    IntervalsPassed(s, now) * s.refillRate
  }

  /** What a wait from `t1` to `t2` is worth at least: one refill per whole interval, capped. */
  function WaitCredit(s: BucketState, t1: nat, t2: nat): nat
    requires s.refillInterval > 0
  {
    Min(s.size, (Elapsed(t1, t2) / s.refillInterval) * s.refillRate)
  }

  /** Refilled at `now` already: anchored less than one interval before `now`, so a refill then gains nothing. */
  predicate Settled(s: BucketState, now: nat) {
    s.Valid() && s.lastFilled <= now && now - s.lastFilled < s.refillInterval
  }

  /**
   * `Bucket::refill` at time `now`: credit the whole intervals since the anchor, capped at
   * the size, and re-anchor at `now` minus the part of an interval not yet credited. What
   * this promises about the tokens and the anchor is `RefillBounds` below.
   */
  function Refilled(s: BucketState, now: nat): (r: BucketState)
    requires s.refillInterval > 0
    // only the token count and the anchor move, and the count stays within capacity
    ensures SameParams(r, s) && r.counters == s.counters
    ensures r.tokens <= s.size
  {
    var elapsed := Elapsed(s.lastFilled, now);
    var remainder := elapsed % s.refillInterval;
    s.(tokens := Min(s.tokens + Credit(s, now), s.size), lastFilled := now - remainder)
  }

  /**
   * What a refill does to the tokens and the anchor: the cap (never above capacity, never
   * below the old count unless clipped to capacity, and below capacity the credit added in
   * full), the remainder invariant (the time not yet credited is the elapsed time modulo
   * the interval), and, on a monotone clock, an anchor that advances by exactly the
   * intervals credited.
   */
  lemma RefillBounds(s: BucketState, now: nat)
    requires s.refillInterval > 0
    ensures var r := Refilled(s, now);
      && (s.tokens <= r.tokens || r.tokens == s.size)
      && r.tokens <= s.tokens + Credit(s, now)
      && (r.tokens < s.size ==> r.tokens == s.tokens + Credit(s, now))
      && r.lastFilled <= now
      && now - r.lastFilled == Elapsed(s.lastFilled, now) % s.refillInterval
      && now - r.lastFilled < s.refillInterval
      && (s.lastFilled <= now ==> r.lastFilled == s.lastFilled + IntervalsPassed(s, now) * s.refillInterval)
  {
    var e := Elapsed(s.lastFilled, now);
    assert e == (e / s.refillInterval) * s.refillInterval + e % s.refillInterval;
  }

  /** `Bucket::request` at time `now`: refill, then take one token if there is one. */
  function Requested(s: BucketState, now: nat): (r: (bool, BucketState))
    requires s.refillInterval > 0
    ensures var f := Refilled(s, now);
      && (r.0 <==> f.tokens > 0)
      && r.1.tokens + (if r.0 then 1 else 0) == f.tokens
      && r.1.lastFilled == f.lastFilled
      && SameParams(r.1, s)
      && r.1.counters == s.counters.Record(r.0)
  {
    var f := Refilled(s, now);
    if f.tokens > 0 then
      (true, f.(tokens := f.tokens - 1, counters := f.counters.Record(true)))
    else
      (false, f.(counters := f.counters.Record(false)))
  }

  /** The outcomes of requests made at the given times, one after another, and the final state. */
  function Serve(s: BucketState, times: seq<nat>): (r: (seq<bool>, BucketState))
    requires s.refillInterval > 0
    ensures |r.0| == |times|
    ensures SameParams(r.1, s)
    ensures s.Valid() ==> r.1.Valid()
    decreases |times|
  {
    if times == [] then ([], s)
    else
      var step := Requested(s, times[0]);
      var rest := Serve(step.1, times[1..]);
      ([step.0] + rest.0, rest.1)
  }

  /** Refills at each of the given times, one after another. */
  function RefillAll(s: BucketState, times: seq<nat>): (r: BucketState)
    requires s.refillInterval > 0
    ensures SameParams(r, s) && r.counters == s.counters
    ensures s.Valid() ==> r.Valid()
    decreases |times|
  {
    if times == [] then s else RefillAll(Refilled(s, times[0]), times[1..])
  }

  function CountTrue(bs: seq<bool>): nat {
    if bs == [] then 0 else (if bs[0] then 1 else 0) + CountTrue(bs[1..])
  }

  predicate Nondecreasing(times: seq<nat>) {
    forall i, j :: 0 <= i < j < |times| ==> times[i] <= times[j]
  }

  /** `set_vip`'s reset: full again and anchored at `now`, with its parameters and counters kept. */
  function Refreshed(s: BucketState, now: nat): (r: BucketState)
    requires s.refillInterval > 0
    ensures r.Valid() && r.tokens == r.size == s.size && r.lastFilled == now
    ensures r.refillRate == s.refillRate && r.refillInterval == s.refillInterval && r.counters == s.counters
  {
    s.(tokens := s.size, lastFilled := now)
  }

  // ---------------------------------------------------------------------------
  // Division facts

  lemma DivModUnique(n: nat, d: nat, q: nat, m: nat)
    requires d > 0 && m < d && n == q * d + m
    ensures n / d == q && n % d == m
  {
    var q', m' := n / d, n % d;
    assert n == q' * d + m';
    if q < q' {
      MulMonotone(q + 1, q', d);
      assert false;
    } else if q' < q {
      MulMonotone(q' + 1, q, d);
      assert false;
    }
  }

  lemma MulMonotone(a: nat, b: nat, c: nat)
    requires a <= b
    ensures a * c <= b * c
  {
    var k := b - a;
    assert b * c == a * c + k * c;
  }

  lemma MulAdd(a: nat, b: nat, c: nat)
    ensures (a + b) * c == a * c + b * c
  {
  }

  /** Adding whole multiples of `d` shifts the quotient and keeps the remainder. */
  lemma DivModShift(a: nat, q: nat, d: nat)
    requires d > 0
    ensures (a + q * d) / d == a / d + q
    ensures (a + q * d) % d == a % d
  {
    assert a == (a / d) * d + a % d;
    assert a + q * d == (a / d + q) * d + a % d;
    DivModUnique(a + q * d, d, a / d + q, a % d);
  }

  // ---------------------------------------------------------------------------
  // Refill: stability, composition, no drift

  /** A bucket anchored less than one interval ago gains nothing and keeps its anchor. */
  lemma AnchoredIsStable(s: BucketState, now: nat)
    requires Settled(s, now)
    ensures Refilled(s, now) == s
  {
    DivModUnique(now - s.lastFilled, s.refillInterval, 0, now - s.lastFilled);
  }

  /** Refilling twice at the same instant is refilling once. */
  lemma RefillIdempotent(s: BucketState, now: nat)
    requires s.refillInterval > 0
    ensures Refilled(Refilled(s, now), now) == Refilled(s, now)
  {
    AnchoredIsStable(Refilled(s, now), now);
  }

  /** No drift, no double credit: a refill at `t1` followed by one at `t2` is a single refill at `t2`. */
  lemma RefillComposes(s: BucketState, t1: nat, t2: nat)
    requires s.refillInterval > 0 && s.lastFilled <= t1 <= t2
    ensures Refilled(Refilled(s, t1), t2) == Refilled(s, t2)
  {
    var d := s.refillInterval;
    var s1 := Refilled(s, t1);
    var q1 := IntervalsPassed(s, t1);
    var e2 := t2 - s1.lastFilled;
    assert t2 - s.lastFilled == e2 + q1 * d;
    DivModShift(e2, q1, d);
    assert IntervalsPassed(s, t2) == IntervalsPassed(s1, t2) + q1;
    assert Credit(s, t2) == Credit(s1, t2) + Credit(s, t1);
  }

  /** Refilling at many nondecreasing times yields what one refill at the last time yields. */
  lemma {:induction false} RefillManyIsRefillOnce(s: BucketState, times: seq<nat>)
    requires s.refillInterval > 0 && |times| > 0
    requires Nondecreasing(times) && s.lastFilled <= times[0]
    ensures RefillAll(s, times) == Refilled(s, times[|times| - 1])
    decreases |times|
  {
    var s1 := Refilled(s, times[0]);
    if |times| == 1 {
      assert times[1..] == [];
    } else {
      var rest := times[1..];
      assert Nondecreasing(rest);
      RefillManyIsRefillOnce(s1, rest);
      RefillComposes(s, times[0], times[|times| - 1]);
    }
  }

  /** After `k` whole intervals the bucket holds at least `k * rate` more tokens, up to the cap. */
  lemma RefillAfterWait(s: BucketState, now: nat, k: nat)
    requires s.refillInterval > 0 && s.lastFilled + k * s.refillInterval <= now
    ensures Refilled(s, now).tokens >= Min(s.tokens + k * s.refillRate, s.size)
  {
    var x := now - s.lastFilled - k * s.refillInterval;
    DivModShift(x, k, s.refillInterval);
    assert IntervalsPassed(s, now) == x / s.refillInterval + k;
    MulMonotone(k, IntervalsPassed(s, now), s.refillRate);
  }

  // ---------------------------------------------------------------------------
  // Requests

  /** Requests at one instant are admitted while the refilled bucket has tokens, then denied. */
  lemma {:induction false} BurstAdmitsAvailableTokens(s: BucketState, now: nat, n: nat)
    requires s.Valid()
    ensures Serve(s, seq(n, _ => now)).0 == Admitted(n, Refilled(s, now).tokens)
    decreases n
  {
    var times := seq(n, _ => now);
    if n > 0 {
      var t := Refilled(s, now).tokens;
      var step := Requested(s, now);
      var next := step.1;
      AnchoredIsStable(next, now);
      assert times[1..] == seq(n - 1, _ => now);
      BurstAdmitsAvailableTokens(next, now, n - 1);
      var rest := Serve(next, times[1..]).0;
      assert rest == Admitted(n - 1, next.tokens);
      assert Serve(s, times).0 == [step.0] + rest;
      assert forall i | 0 <= i < n :: ([step.0] + rest)[i] == (i < t);
    }
  }

  /** Serving a run of requests is serving the first, then the rest from the state it leaves. */
  lemma ServeFirst(s: BucketState, times: seq<nat>)
    requires s.refillInterval > 0 && times != []
    ensures var step := Requested(s, times[0]);
      var rest := Serve(step.1, times[1..]);
      && CountTrue(Serve(s, times).0) == (if step.0 then 1 else 0) + CountTrue(rest.0)
      && Serve(s, times).1 == rest.1
  {
    var step := Requested(s, times[0]);
    var out := Serve(s, times).0;
    assert out[1..] == Serve(step.1, times[1..]).0;
  }

  /** A full bucket admits exactly its capacity at the instant of its anchor, and denies the next request. */
  lemma FullBucketAdmitsCapacity(s: BucketState, now: nat)
    requires s.Valid() && s.tokens == s.size && s.lastFilled == now
    ensures Serve(s, seq(s.size, _ => now)).0 == seq(s.size, _ => true)
    ensures !Serve(s, seq(s.size + 1, _ => now)).0[s.size]
  {
    AnchoredIsStable(s, now);
    BurstAdmitsAvailableTokens(s, now, s.size);
    BurstAdmitsAvailableTokens(s, now, s.size + 1);
    assert Admitted(s.size, s.size) == seq(s.size, _ => true);
  }

  /** A full bucket asked `n` times at the instant of its anchor admits the first `size` requests only. */
  lemma FullBucketBurst(s: BucketState, now: nat, n: nat)
    requires s.Valid() && s.tokens == s.size && s.lastFilled == now
    ensures Serve(s, seq(n, _ => now)).0 == Admitted(n, s.size)
  {
    AnchoredIsStable(s, now);
    BurstAdmitsAvailableTokens(s, now, n);
  }

  /** A full bucket asked its capacity at its anchor admits every request and is left empty there. */
  lemma FullBucketEmpties(s: BucketState, now: nat)
    requires s.Valid() && s.tokens == s.size && s.lastFilled == now
    ensures Serve(s, seq(s.size, _ => now)).0 == seq(s.size, _ => true)
    ensures var r := Serve(s, seq(s.size, _ => now)).1;
      && r.Valid() && r.tokens == 0 && r.lastFilled == now
      && SameParams(r, s)
      && r.counters.requestsAllowed == s.counters.requestsAllowed + s.size
      && r.counters.requestsDenied == s.counters.requestsDenied
  {
    FullBucketAdmitsCapacity(s, now);
    ServeCounts(s, seq(s.size, _ => now));
    CountAllTrue(s.size);
    AnchoredIsStable(s, now);
    BurstLeaves(s, now, s.size);
  }

  /** An empty bucket refills to one refill per whole interval since its anchor, capped at its size. */
  lemma EmptyBucketRefills(e: BucketState, now: nat)
    requires e.Valid() && e.tokens == 0 && e.lastFilled <= now
    ensures Refilled(e, now).tokens
      == Min(((now - e.lastFilled) / e.refillInterval) * e.refillRate, e.size)
  {
    assert Credit(e, now) == ((now - e.lastFilled) / e.refillInterval) * e.refillRate;
  }

  /**
   * A full bucket anchored at `t0` and emptied there by one request more than its capacity
   * stays anchored at `t0`, so at a later `t1` it holds one refill per whole interval since
   * `t0`, capped.
   */
  lemma EmptiedFullBucketRefills(s: BucketState, t0: nat, t1: nat)
    requires s.Valid() && s.tokens == s.size && s.lastFilled == t0 <= t1
    ensures var e := Serve(s, seq(s.size + 1, _ => t0)).1;
      && e.Valid() && SameParams(e, s) && e.tokens == 0 && e.lastFilled == t0
      && Refilled(e, t1).tokens == Min(((t1 - t0) / s.refillInterval) * s.refillRate, s.size)
  {
    var e := Serve(s, seq(s.size + 1, _ => t0)).1;
    AnchoredIsStable(s, t0);
    BurstLeaves(s, t0, s.size + 1);
    EmptyBucketRefills(e, t1);
  }

  /** A bucket anchored no later than `t1` holds, at `t2`, at least one refill per whole interval from `t1`, capped. */
  lemma WaitRefills(s: BucketState, t1: nat, t2: nat)
    requires s.Valid() && s.lastFilled <= t1 <= t2
    ensures Refilled(s, t2).tokens >= WaitCredit(s, t1, t2)
  {
    var k := (t2 - t1) / s.refillInterval;
    assert k * s.refillInterval <= t2 - t1;
    RefillAfterWait(s, t2, k);
  }

  /**
   * A bucket anchored no later than `t1`, asked again at `t2`, admits the requests of at
   * least one refill per whole interval from `t1` to `t2`, capped at its size.
   */
  lemma WaitReadmits(s: BucketState, t1: nat, t2: nat)
    requires s.Valid() && s.lastFilled <= t1 <= t2
    ensures var n := WaitCredit(s, t1, t2);
      Serve(s, seq(n, _ => t2)).0 == seq(n, _ => true)
  {
    var n := WaitCredit(s, t1, t2);
    WaitRefills(s, t1, t2);
    BurstAdmitsAvailableTokens(s, t2, n);
    assert Admitted(n, Refilled(s, t2).tokens) == seq(n, _ => true);
  }

  /** Serving one more request at the end extends the outcomes by that request's outcome. */
  lemma {:induction false} ServeLast(s: BucketState, times: seq<nat>, now: nat)
    requires s.refillInterval > 0
    ensures var last := Requested(Serve(s, times).1, now);
      && Serve(s, times + [now]).0 == Serve(s, times).0 + [last.0]
      && Serve(s, times + [now]).1 == last.1
    decreases |times|
  {
    if times != [] {
      var step := Requested(s, times[0]);
      assert (times + [now])[0] == times[0];
      assert (times + [now])[1..] == times[1..] + [now];
      ServeLast(step.1, times[1..], now);
    } else {
      assert [] + [now] == [now];
    }
  }

  /** Counting the outcomes one more at a time. */
  lemma {:induction false} CountTrueLast(bs: seq<bool>, b: bool)
    ensures CountTrue(bs + [b]) == CountTrue(bs) + (if b then 1 else 0)
    decreases |bs|
  {
    if bs != [] {
      assert (bs + [b])[1..] == bs[1..] + [b];
      CountTrueLast(bs[1..], b);
    } else {
      assert [] + [b] == [b];
    }
  }

  /**
   * After a burst of `n` requests at one instant the bucket holds what the refill gave
   * less what the burst took, keeps its parameters, and (if there was a request) sits at
   * the anchor of the refill.
   */
  lemma {:induction false} BurstLeaves(s: BucketState, now: nat, n: nat)
    requires s.Valid()
    ensures var r := Serve(s, seq(n, _ => now)).1;
      var t := Refilled(s, now).tokens;
      && r.Valid() && SameParams(r, s)
      && (n > 0 ==> r.tokens == t - Min(n, t) && r.lastFilled == Refilled(s, now).lastFilled)
    decreases n
  {
    if n > 0 {
      var step := Requested(s, now);
      var next := step.1;
      var times := seq(n, _ => now);
      AnchoredIsStable(next, now);
      assert times[1..] == seq(n - 1, _ => now);
      BurstLeaves(next, now, n - 1);
      assert Serve(s, times).1 == Serve(next, times[1..]).1;
    }
  }

  /** A run of admissions counts as its length. */
  lemma {:induction false} CountAllTrue(n: nat)
    ensures CountTrue(seq(n, _ => true)) == n
    decreases n
  {
    if n > 0 {
      assert seq(n, _ => true)[1..] == seq(n - 1, _ => true);
      CountAllTrue(n - 1);
    }
  }

  /**
   * The bucket's own counters over a run of requests: the admitted count rises by the
   * number of admissions and the denied count by the rest.
   */
  lemma {:induction false} ServeCounts(s: BucketState, times: seq<nat>)
    requires s.refillInterval > 0
    ensures var r := Serve(s, times);
      && r.1.counters.requestsAllowed == s.counters.requestsAllowed + CountTrue(r.0)
      && r.1.counters.requestsDenied + CountTrue(r.0) == s.counters.requestsDenied + |times|
    decreases |times|
  {
    if times != [] {
      var init, last := times[..|times| - 1], times[|times| - 1];
      assert times == init + [last];
      ServeCounts(s, init);
      ServeLast(s, init, last);
      CountTrueLast(Serve(s, init).0, Requested(Serve(s, init).1, last).0);
    }
  }

  /** One request spends at most the credit of the intervals it lets pass, and re-anchors by them. */
  lemma RequestPaidByCredit(s: BucketState, now: nat)
    requires s.refillInterval > 0 && s.lastFilled <= now
    ensures var step := Requested(s, now);
      && (if step.0 then 1 else 0) + step.1.tokens <= s.tokens + IntervalsPassed(s, now) * s.refillRate
      && step.1.lastFilled == s.lastFilled + IntervalsPassed(s, now) * s.refillInterval
  {
  }

  /** The tail of a run of times within a horizon is again such a run. */
  lemma RunTail(times: seq<nat>, horizon: nat)
    requires times != [] && Nondecreasing(times)
    requires forall i :: 0 <= i < |times| ==> times[i] <= horizon
    ensures Nondecreasing(times[1..])
    ensures forall i :: 0 <= i < |times[1..]| ==> times[1..][i] <= horizon
    ensures |times[1..]| > 0 ==> times[0] <= times[1..][0]
  {
    var rest := times[1..];
    forall i | 0 <= i < |rest| ensures rest[i] <= horizon {
      assert rest[i] == times[i + 1];
    }
  }

  /** Adding the bound for the first request to the bound for the rest. */
  lemma AddBounds(first: nat, rest: nat, t0: nat, t1: nat, q1: nat, q2: nat, rate: nat)
    requires first + t1 <= t0 + q1 * rate
    requires rest <= t1 + q2 * rate
    ensures first + rest <= t0 + (q2 + q1) * rate
  {
    MulAdd(q2, q1, rate);
  }

  /** Whole intervals from `a` to `h` are those up to a point `q` intervals after `a`, plus those from there. */
  lemma ElapsedSplit(a: nat, m: nat, h: nat, q: nat, d: nat)
    requires d > 0 && m == a + q * d && m <= h
    ensures Elapsed(a, h) / d == Elapsed(m, h) / d + q
  {
    assert h - a == (h - m) + q * d;
    DivModShift(h - m, q, d);
  }

  /** The bound for a run follows from the bound for its tail, from the state the first request leaves. */
  lemma {:induction false} AdmissionsStep(s: BucketState, times: seq<nat>, horizon: nat)
    requires s.refillInterval > 0 && times != [] && s.lastFilled <= times[0] <= horizon
    requires var s1 := Requested(s, times[0]).1;
      CountTrue(Serve(s1, times[1..]).0) + Serve(s1, times[1..]).1.tokens
        <= s1.tokens + (Elapsed(s1.lastFilled, horizon) / s.refillInterval) * s.refillRate
    ensures CountTrue(Serve(s, times).0) + Serve(s, times).1.tokens
      <= s.tokens + (Elapsed(s.lastFilled, horizon) / s.refillInterval) * s.refillRate
  {
    var d, rate := s.refillInterval, s.refillRate;
    var step := Requested(s, times[0]);
    var s1 := step.1;
    var bit := if step.0 then 1 else 0;
    var q1 := IntervalsPassed(s, times[0]);
    var q2 := IntervalsPassed(s1, horizon);
    var rest := CountTrue(Serve(s1, times[1..]).0) + Serve(s1, times[1..]).1.tokens;
    assert CountTrue(Serve(s, times).0) + Serve(s, times).1.tokens == bit + rest by {
      ServeFirst(s, times);
    }
    assert bit + s1.tokens <= s.tokens + q1 * rate && s1.lastFilled == s.lastFilled + q1 * d by {
      RequestPaidByCredit(s, times[0]);
    }
    assert Elapsed(s.lastFilled, horizon) / d == q2 + q1 by {
      ElapsedSplit(s.lastFilled, s1.lastFilled, horizon, q1, d);
    }
    AddBounds(bit, rest, s.tokens, s1.tokens, q1, q2, rate);
  }

  /**
   * The sustained-rate guarantee: over any run of requests up to `horizon`, the requests
   * admitted plus the tokens left never exceed the starting tokens plus one refill per whole
   * interval since the starting anchor.
   */
  lemma {:induction false} AdmissionsBounded(s: BucketState, times: seq<nat>, horizon: nat)
    requires s.refillInterval > 0 && s.lastFilled <= horizon
    requires Nondecreasing(times) && (|times| > 0 ==> s.lastFilled <= times[0])
    requires forall i :: 0 <= i < |times| ==> times[i] <= horizon
    ensures CountTrue(Serve(s, times).0) + Serve(s, times).1.tokens
      <= s.tokens + (Elapsed(s.lastFilled, horizon) / s.refillInterval) * s.refillRate
    decreases |times|
  {
    if times != [] {
      var s1 := Requested(s, times[0]).1;
      RequestPaidByCredit(s, times[0]);
      RunTail(times, horizon);
      AdmissionsBounded(s1, times[1..], horizon);
      AdmissionsStep(s, times, horizon);
    } else {
      MulMonotone(0, Elapsed(s.lastFilled, horizon) / s.refillInterval, s.refillRate);
    }
  }

  /** After `set_vip`'s reset, a request at the same instant is admitted exactly when the capacity is positive. */
  lemma RefreshedAdmitsNext(s: BucketState, now: nat)
    requires s.refillInterval > 0
    ensures Requested(Refreshed(s, now), now).0 <==> s.size > 0
  {
    AnchoredIsStable(Refreshed(s, now), now);
  }

  /** A request on a settled bucket only spends a token, if there is one; the anchor stays. */
  lemma SettledRequest(s: BucketState, now: nat)
    requires Settled(s, now)
    ensures var r := Requested(s, now);
      && (r.0 <==> s.tokens > 0)
      && r.1.tokens == s.tokens - (if r.0 then 1 else 0)
      && r.1.lastFilled == s.lastFilled
      && Settled(r.1, now)
  {
    AnchoredIsStable(s, now);
  }

  /** Whatever the bucket's state, a request at `now` leaves it settled at `now`. */
  lemma RequestSettles(s: BucketState, now: nat)
    requires s.Valid()
    ensures Settled(Requested(s, now).1, now)
  {
    RefillBounds(s, now);
  }

  // ---------------------------------------------------------------------------
  // The token count as src/lib.rs:169-170 computes it

  const U32Modulus: nat := 0x1_0000_0000

  /**
   * The refilled token count with the source's machine arithmetic: the credit is cast to
   * `u32`, which keeps only its low 32 bits, and the `u32` sum wraps (a release build; a
   * debug build panics there instead).
   */
  function RefilledTokensAsWritten(s: BucketState, now: nat): (t: nat)
    requires s.refillInterval > 0
    ensures t <= s.size
  {
    Min((s.tokens + Credit(s, now) % U32Modulus) % U32Modulus, s.size)
  }

  /** Without overflow the machine arithmetic agrees with the model. */
  lemma AsWrittenAgreesWithoutOverflow(s: BucketState, now: nat)
    requires s.refillInterval > 0 && s.tokens + Credit(s, now) < U32Modulus
    ensures RefilledTokensAsWritten(s, now) == Refilled(s, now).tokens
  {
  }

  /**
   * An empty bucket (capacity 10, one token per millisecond) left idle for 2^32 ms, about
   * 50 days: the truncated credit is 0, so it stays empty, where the intended refill fills it.
   */
  lemma AsWrittenLosesLongIdleCredit()
    ensures var s := BucketState(10, 0, 1, 1_000_000, 0, NoRequests);
      var now := U32Modulus * 1_000_000;
      RefilledTokensAsWritten(s, now) == 0 && Refilled(s, now).tokens == 10
  {
    var s := BucketState(10, 0, 1, 1_000_000, 0, NoRequests);
    var now := U32Modulus * 1_000_000;
    DivModUnique(now, 1_000_000, U32Modulus, 0);
    assert Credit(s, now) == U32Modulus;
  }
}
