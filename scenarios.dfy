/**
 * The scenarios of the unit tests of src/lib.rs, driven through `RateLimiter` with
 * explicit clock readings. Each returns what the test observes and states what the
 * test asserts; the sleeps of the tests become conditions on the times.
 *
 * The building blocks below work on one key at one instant. The first request at an
 * instant refills the key's bucket (`RequestRefilling`); from then on the bucket is
 * `Settled` at that instant and each further request only spends a token
 * (`RequestSettled`).
 */
module Scenarios {
  import opened TokenBucket
  import opened Limiter

  /** The keys the tests use, as distinct names. */
  datatype Name = Erin | Coconut | Honey | Elliot | Waffle | Lillo | Dawn

  /** One more request: admitted exactly when tokens are still left. */
  lemma AdmittedSnoc(n: nat, t: nat)
    ensures Admitted(n, t) + [n < t] == Admitted(n + 1, t)
  {
    var a, b := Admitted(n, t) + [n < t], Admitted(n + 1, t);
    forall i | 0 <= i < n + 1
      ensures a[i] == b[i]
    {
      if i < n {
        assert a[i] == Admitted(n, t)[i];
      }
    }
  }

  /** The first request spends a token, if any, and the rest see one token fewer. */
  lemma AdmittedCons(n: nat, t: nat)
    requires n > 0
    ensures Admitted(n, t) == [0 < t] + Admitted(n - 1, t - Min(1, t))
  {
    var a, b := Admitted(n, t), [0 < t] + Admitted(n - 1, t - Min(1, t));
    forall i | 0 <= i < n
      ensures a[i] == b[i]
    {
      if i > 0 {
        assert b[i] == Admitted(n - 1, t - Min(1, t))[i - 1];
      }
    }
  }

  /** As long as there are tokens for all of them, every request is admitted. */
  lemma AdmittedWhileTokensLast(n: nat, t: nat)
    requires n <= t
    ensures Admitted(n, t) == seq(n, _ => true)
  {
  }

  /**
   * One request for `key` at `now`, whatever the state of its bucket (stored, or about to
   * be created): it is admitted exactly when the refill at `now` leaves a token, and the
   * bucket is left settled at `now`. Only that key's bucket changes.
   */
  method RequestRefilling<K(==,!new)>(rl: RateLimiter<K>, key: K, now: nat) returns (allowed: bool)
    requires rl.Valid()
    modifies rl.Repr
    ensures rl.Valid() && fresh(rl.Repr - old(rl.Repr))
    ensures var e := old(rl.Entry(key, rl.defaultBucketSize, rl.defaultRefillRate, now));
      var f := Refilled(e, now);
      && (allowed <==> f.tokens > 0)
      && key in rl.View && Settled(rl.View[key], now)
      && rl.View[key].tokens == f.tokens - (if allowed then 1 else 0)
      && SameParams(rl.View[key], e)
    ensures rl.View - {key} == old(rl.View) - {key}
    ensures rl.counters == old(rl.counters).Record(allowed)
  {
    ghost var e := rl.Entry(key, rl.defaultBucketSize, rl.defaultRefillRate, now);
    allowed := rl.Request(key, now);
    UpdateThenRemove(old(rl.View), key, Requested(e, now).1);
    assert Settled(rl.View[key], now) by {
      RequestSettles(e, now);
    }
  }

  /**
   * One request for `key` at `now` on a bucket (stored, or about to be created) settled
   * at `now`: it is admitted exactly when a token is left, and spends it; the anchor stays.
   */
  method RequestSettled<K(==,!new)>(rl: RateLimiter<K>, key: K, now: nat) returns (allowed: bool)
    requires rl.Valid() && Settled(rl.Entry(key, rl.defaultBucketSize, rl.defaultRefillRate, now), now)
    modifies rl.Repr
    ensures rl.Valid() && fresh(rl.Repr - old(rl.Repr))
    ensures var e := old(rl.Entry(key, rl.defaultBucketSize, rl.defaultRefillRate, now));
      && (allowed <==> e.tokens > 0)
      && key in rl.View && Settled(rl.View[key], now)
      && rl.View[key].tokens == e.tokens - (if allowed then 1 else 0)
      && rl.View[key].lastFilled == e.lastFilled && SameParams(rl.View[key], e)
    ensures rl.View - {key} == old(rl.View) - {key}
    ensures rl.counters == old(rl.counters).Record(allowed)
  {
    ghost var e := rl.Entry(key, rl.defaultBucketSize, rl.defaultRefillRate, now);
    allowed := rl.Request(key, now);
    UpdateThenRemove(old(rl.View), key, Requested(e, now).1);
    assert (allowed <==> e.tokens > 0) && rl.View[key].tokens == e.tokens - (if allowed then 1 else 0)
      && rl.View[key].lastFilled == e.lastFilled && Settled(rl.View[key], now)
    by {
      SettledRequest(e, now);
    }
  }

  /**
   * `n` requests for `key` at `now` on a bucket settled at `now`: the first ones, as many
   * as it holds tokens, are admitted and the rest denied.
   */
  method BurstSettled<K(==,!new)>(rl: RateLimiter<K>, key: K, now: nat, n: nat) returns (outcomes: seq<bool>)
    requires rl.Valid() && Settled(rl.Entry(key, rl.defaultBucketSize, rl.defaultRefillRate, now), now)
    modifies rl.Repr
    ensures rl.Valid() && fresh(rl.Repr - old(rl.Repr))
    ensures outcomes == Admitted(n, old(rl.Entry(key, rl.defaultBucketSize, rl.defaultRefillRate, now)).tokens)
    ensures var e := old(rl.Entry(key, rl.defaultBucketSize, rl.defaultRefillRate, now));
      var r := rl.Entry(key, rl.defaultBucketSize, rl.defaultRefillRate, now);
      && Settled(r, now) && r.tokens == e.tokens - Min(n, e.tokens)
      && r.lastFilled == e.lastFilled && SameParams(r, e)
    ensures rl.View - {key} == old(rl.View) - {key}
    ensures var t := old(rl.Entry(key, rl.defaultBucketSize, rl.defaultRefillRate, now)).tokens;
      && rl.counters.requestsAllowed == old(rl.counters.requestsAllowed) + Min(n, t)
      && rl.counters.requestsDenied == old(rl.counters.requestsDenied) + (n - Min(n, t))
  {
    ghost var e := rl.Entry(key, rl.defaultBucketSize, rl.defaultRefillRate, now);
    outcomes := [];
    var i := 0;
    while i < n
      invariant i <= n
      invariant rl.Valid() && fresh(rl.Repr - old(rl.Repr))
      invariant outcomes == Admitted(i, e.tokens)
      invariant var r := rl.Entry(key, rl.defaultBucketSize, rl.defaultRefillRate, now);
        && Settled(r, now) && r.tokens == e.tokens - Min(i, e.tokens)
        && r.lastFilled == e.lastFilled && SameParams(r, e)
      invariant rl.View - {key} == old(rl.View) - {key}
      invariant rl.counters.requestsAllowed == old(rl.counters.requestsAllowed) + Min(i, e.tokens)
      invariant rl.counters.requestsDenied == old(rl.counters.requestsDenied) + (i - Min(i, e.tokens))
    {
      var allowed := RequestSettled(rl, key, now);
      AdmittedSnoc(i, e.tokens);
      outcomes := outcomes + [allowed];
      i := i + 1;
    }
  }

  /**
   * `while ratelimiter.request(key) {}` at `now` on a bucket settled at `now`: exactly the
   * tokens it holds are admitted, then one request is denied.
   */
  method DrainSettled<K(==,!new)>(rl: RateLimiter<K>, key: K, now: nat) returns (admitted: nat)
    requires rl.Valid() && Settled(rl.Entry(key, rl.defaultBucketSize, rl.defaultRefillRate, now), now)
    modifies rl.Repr
    ensures rl.Valid() && fresh(rl.Repr - old(rl.Repr))
    ensures admitted == old(rl.Entry(key, rl.defaultBucketSize, rl.defaultRefillRate, now)).tokens
    ensures var e := old(rl.Entry(key, rl.defaultBucketSize, rl.defaultRefillRate, now));
      && key in rl.View && Settled(rl.View[key], now) && rl.View[key].tokens == 0
      && rl.View[key].lastFilled == e.lastFilled && SameParams(rl.View[key], e)
    ensures rl.View - {key} == old(rl.View) - {key}
    ensures rl.counters.requestsAllowed == old(rl.counters.requestsAllowed) + admitted
    ensures rl.counters.requestsDenied == old(rl.counters.requestsDenied) + 1
  {
    ghost var e := rl.Entry(key, rl.defaultBucketSize, rl.defaultRefillRate, now);
    admitted := 0;
    var allowed := RequestSettled(rl, key, now);
    while allowed
      invariant admitted <= e.tokens && (allowed <==> admitted < e.tokens)
      invariant rl.Valid() && fresh(rl.Repr - old(rl.Repr))
      invariant key in rl.View && Settled(rl.View[key], now)
      invariant rl.View[key].tokens == e.tokens - admitted - (if allowed then 1 else 0)
      invariant rl.View[key].lastFilled == e.lastFilled && SameParams(rl.View[key], e)
      invariant rl.View - {key} == old(rl.View) - {key}
      invariant rl.counters.requestsAllowed
        == old(rl.counters.requestsAllowed) + admitted + (if allowed then 1 else 0)
      invariant rl.counters.requestsDenied == old(rl.counters.requestsDenied) + (if allowed then 0 else 1)
      decreases e.tokens - admitted
    {
      admitted := admitted + 1;
      allowed := RequestSettled(rl, key, now);
    }
  }

  /**
   * A key the limiter has not seen admits the default capacity at one instant; only that
   * key's bucket changes and only the admitted counter goes up.
   */
  method FreshBurst<K(==,!new)>(rl: RateLimiter<K>, key: K, now: nat) returns (outcomes: seq<bool>)
    requires rl.Valid() && key !in rl.View
    modifies rl.Repr
    ensures rl.Valid() && fresh(rl.Repr - old(rl.Repr))
    ensures outcomes == seq(rl.defaultBucketSize, _ => true)
    ensures rl.View - {key} == old(rl.View) - {key}
    ensures rl.counters.requestsAllowed == old(rl.counters.requestsAllowed) + rl.defaultBucketSize
    ensures rl.counters.requestsDenied == old(rl.counters.requestsDenied)
  {
    outcomes := BurstSettled(rl, key, now, rl.defaultBucketSize);
  }

  /**
   * A key the limiter has not seen admits the default capacity at one instant and denies
   * the next request, which leaves its bucket empty and still anchored at that instant.
   */
  method FreshBurstThenDeny<K(==,!new)>(rl: RateLimiter<K>, key: K, now: nat) returns (burst: seq<bool>, extra: bool)
    requires rl.Valid() && key !in rl.View
    modifies rl.Repr
    ensures rl.Valid() && fresh(rl.Repr - old(rl.Repr))
    ensures burst == seq(rl.defaultBucketSize, _ => true) && !extra
    ensures key in rl.View && rl.View[key].tokens == 0 && rl.View[key].lastFilled == now
    ensures rl.View[key].size == rl.defaultBucketSize && rl.View[key].refillRate == rl.defaultRefillRate
    ensures rl.View[key].refillInterval == rl.defaultRefillInterval
    ensures rl.View - {key} == old(rl.View) - {key}
    ensures rl.counters.requestsAllowed == old(rl.counters.requestsAllowed) + rl.defaultBucketSize
    ensures rl.counters.requestsDenied == old(rl.counters.requestsDenied) + 1
  {
    burst := BurstSettled(rl, key, now, rl.defaultBucketSize);
    extra := RequestSettled(rl, key, now);
  }

  /**
   * Draining, at `t1`, a bucket left empty at its anchor `t0`: exactly the refills of the
   * whole intervals since `t0`, capped at the size, are admitted before the denial.
   */
  method DrainEmptied<K(==,!new)>(rl: RateLimiter<K>, key: K, t0: nat, t1: nat) returns (drained: nat)
    requires rl.Valid() && key in rl.View
    requires rl.View[key].tokens == 0 && rl.View[key].lastFilled == t0 <= t1
    modifies rl.Repr
    ensures rl.Valid() && fresh(rl.Repr - old(rl.Repr))
    ensures drained
      == Min(((t1 - t0) / old(rl.View[key].refillInterval)) * old(rl.View[key].refillRate), old(rl.View[key].size))
    ensures key in rl.View && rl.View[key].tokens == 0 && rl.View[key].lastFilled <= t1
    ensures SameParams(rl.View[key], old(rl.View[key]))
    ensures rl.View - {key} == old(rl.View) - {key}
    ensures rl.counters.requestsAllowed == old(rl.counters.requestsAllowed) + drained
    ensures rl.counters.requestsDenied == old(rl.counters.requestsDenied) + 1
  {
    ghost var s := rl.View[key];
    var first := RequestRefilling(rl, key, t1);
    if first {
      var rest := DrainSettled(rl, key, t1);
      drained := rest + 1;
    } else {
      drained := 0;
    }
    assert drained == Refilled(s, t1).tokens;
    assert Refilled(s, t1).tokens == Min(((t1 - t0) / s.refillInterval) * s.refillRate, s.size) by {
      EmptyBucketRefills(s, t1);
    }
  }

  /**
   * A bucket anchored no later than `t1`, asked again at `t2`: at least one refill per whole
   * interval of the wait, capped at the size, is admitted.
   */
  method ReadmitAfterWait<K(==,!new)>(rl: RateLimiter<K>, key: K, t1: nat, t2: nat) returns (readmitted: seq<bool>)
    requires rl.Valid() && key in rl.View && rl.View[key].lastFilled <= t1 <= t2
    modifies rl.Repr
    ensures rl.Valid() && fresh(rl.Repr - old(rl.Repr))
    ensures readmitted == seq(WaitCredit(old(rl.View[key]), t1, t2), _ => true)
    ensures rl.counters.requestsAllowed == old(rl.counters.requestsAllowed) + |readmitted|
    ensures rl.counters.requestsDenied == old(rl.counters.requestsDenied)
  {
    ghost var s := rl.View[key];
    var bucket := rl.buckets[key];
    var size, rate, interval := bucket.size, bucket.refillRate, bucket.refillInterval;
    assert size == s.size && rate == s.refillRate && interval == s.refillInterval;
    var n := Min(size, (Elapsed(t1, t2) / interval) * rate);
    assert n == WaitCredit(s, t1, t2);
    WaitRefills(s, t1, t2);
    readmitted := BurstWithinRefill(rl, key, t2, n);
  }

  /**
   * `n` requests for a stored key at `now`, when its refill at `now` gives at least `n`
   * tokens: every one of them is admitted.
   */
  method BurstWithinRefill<K(==,!new)>(rl: RateLimiter<K>, key: K, now: nat, n: nat) returns (outcomes: seq<bool>)
    requires rl.Valid() && key in rl.View && n <= Refilled(rl.View[key], now).tokens
    modifies rl.Repr
    ensures rl.Valid() && fresh(rl.Repr - old(rl.Repr))
    ensures outcomes == seq(n, _ => true)
    ensures rl.counters.requestsAllowed == old(rl.counters.requestsAllowed) + n
    ensures rl.counters.requestsDenied == old(rl.counters.requestsDenied)
  {
    if n == 0 {
      outcomes := [];
    } else {
      ghost var t := Refilled(rl.View[key], now).tokens;
      var first := RequestRefilling(rl, key, now);
      assert first && rl.View[key].tokens == t - 1;
      assert rl.Entry(key, rl.defaultBucketSize, rl.defaultRefillRate, now) == rl.View[key];
      var rest := BurstSettled(rl, key, now, n - 1);
      assert rest == Admitted(n - 1, t - 1);
      outcomes := [first] + rest;
      AdmittedCons(n, t);
      AdmittedWhileTokensLast(n, t);
    }
  }

  /**
   * test_limiter_async (src/lib.rs:294-303): a new key admits as many requests at one
   * instant as the default capacity, and denies the next one.
   */
  method BurstThenDeny(size: nat, rate: nat, interval: nat, now: nat)
    returns (burst: seq<bool>, extra: bool)
    requires interval > 0
    ensures burst == seq(size, _ => true)
    ensures !extra
  {
    var rl := new RateLimiter<Name>(size, rate, interval);
    burst, extra := FreshBurstThenDeny(rl, Honey, now);
  }

  /**
   * test_limiter (src/lib.rs:226-266): a new key admits its capacity at `t0` and then
   * denies; an unrelated key still admits its own capacity; draining the first key at a
   * later `t1` admits exactly the refills since `t0`, capped; and after a wait until `t2`
   * at least one refill per whole interval of the wait, capped, is admitted again. The
   * global counters count every one of these requests.
   */
  method LimiterScenario(size: nat, rate: nat, interval: nat, t0: nat, t1: nat, t2: nat)
    returns (burst: seq<bool>, extra: bool, unrelated: seq<bool>, drained: nat, refilled: seq<bool>,
             stats: Stats)
    requires interval > 0 && t0 <= t1 <= t2
    ensures burst == seq(size, _ => true) && !extra
    ensures unrelated == seq(size, _ => true)
    ensures drained == Min(((t1 - t0) / interval) * rate, size)
    ensures refilled == seq(Min(size, ((t2 - t1) / interval) * rate), _ => true)
    ensures stats.requestsAllowed == 2 * size + drained + |refilled| && stats.requestsDenied == 2
  {
    var rl := new RateLimiter<Name>(size, rate, interval);
    burst, extra := FreshBurstThenDeny(rl, Erin, t0);
    AgreeElsewhere(rl.View, map[], Erin, Coconut);
    ghost var afterErin := rl.View;
    unrelated := FreshBurst(rl, Coconut, t0);
    AgreeElsewhere(rl.View, afterErin, Coconut, Erin);
    drained := DrainEmptied(rl, Erin, t0, t1);
    refilled := ReadmitAfterWait(rl, Erin, t1, t2);
    stats := rl.counters;
  }

  /**
   * `set_vip` on a key the limiter has not seen: its bucket is full, anchored at `now`, with
   * the given size and rate and the default interval; nothing else changes.
   */
  method SetVipFresh<K(==,!new)>(rl: RateLimiter<K>, key: K, size: nat, rate: nat, now: nat)
    requires rl.Valid() && key !in rl.View
    modifies rl.Repr
    ensures rl.Valid() && fresh(rl.Repr - old(rl.Repr))
    ensures key in rl.View && rl.View[key].tokens == rl.View[key].size == size
    ensures rl.View[key].refillRate == rate && rl.View[key].lastFilled == now
    ensures rl.View - {key} == old(rl.View) - {key}
    ensures rl.counters == old(rl.counters)
  {
    rl.SetVip(key, size, rate, now);
    UpdateThenRemove(old(rl.View), key, rl.View[key]);
  }

  /**
   * One request for each of two keys whose buckets (stored, or about to be created) are
   * settled at `now`: each spends its own token, and both buckets are then stored.
   */
  method RequestPairSettled<K(==,!new)>(rl: RateLimiter<K>, first: K, second: K, now: nat) returns (a: bool, b: bool)
    requires rl.Valid() && first != second
    requires Settled(rl.Entry(first, rl.defaultBucketSize, rl.defaultRefillRate, now), now)
    requires Settled(rl.Entry(second, rl.defaultBucketSize, rl.defaultRefillRate, now), now)
    modifies rl.Repr
    ensures rl.Valid() && fresh(rl.Repr - old(rl.Repr))
    ensures var e := old(rl.Entry(first, rl.defaultBucketSize, rl.defaultRefillRate, now));
      && first in rl.View && Settled(rl.View[first], now)
      && (a <==> e.tokens > 0) && rl.View[first].tokens == e.tokens - (if a then 1 else 0)
    ensures var e := old(rl.Entry(second, rl.defaultBucketSize, rl.defaultRefillRate, now));
      && second in rl.View && Settled(rl.View[second], now)
      && (b <==> e.tokens > 0) && rl.View[second].tokens == e.tokens - (if b then 1 else 0)
  {
    ghost var before := rl.View;
    a := RequestSettled(rl, first, now);
    AgreeElsewhere(rl.View, before, first, second);
    ghost var between := rl.View;
    b := RequestSettled(rl, second, now);
    AgreeElsewhere(rl.View, between, second, first);
  }

  /** One request for each of two stored keys settled at `now`: each spends its own token. */
  method RequestPair<K(==,!new)>(rl: RateLimiter<K>, first: K, second: K, now: nat) returns (a: bool, b: bool)
    requires rl.Valid() && first != second && first in rl.View && second in rl.View
    requires Settled(rl.View[first], now) && Settled(rl.View[second], now)
    modifies rl.Repr
    ensures rl.Valid() && fresh(rl.Repr - old(rl.Repr))
    ensures first in rl.View && Settled(rl.View[first], now)
    ensures (a <==> old(rl.View[first].tokens) > 0) && rl.View[first].tokens == old(rl.View[first].tokens) - (if a then 1 else 0)
    ensures second in rl.View && Settled(rl.View[second], now)
    ensures (b <==> old(rl.View[second].tokens) > 0) && rl.View[second].tokens == old(rl.View[second].tokens) - (if b then 1 else 0)
  {
    ghost var before := rl.View;
    a := RequestSettled(rl, first, now);
    AgreeElsewhere(rl.View, before, first, second);
    ghost var between := rl.View;
    b := RequestSettled(rl, second, now);
    AgreeElsewhere(rl.View, between, second, first);
  }

  /**
   * Requests at one instant alternating between two stored keys whose buckets are settled
   * there: each key is admitted while its own tokens last.
   */
  method InterleavedStored<K(==,!new)>(rl: RateLimiter<K>, first: K, second: K, now: nat, n: nat)
    returns (firstOutcomes: seq<bool>, secondOutcomes: seq<bool>)
    requires rl.Valid() && first != second && first in rl.View && second in rl.View
    requires Settled(rl.View[first], now) && Settled(rl.View[second], now)
    modifies rl.Repr
    ensures rl.Valid() && fresh(rl.Repr - old(rl.Repr))
    ensures firstOutcomes == Admitted(n, old(rl.View[first].tokens))
    ensures secondOutcomes == Admitted(n, old(rl.View[second].tokens))
  {
    ghost var t1, t2 := rl.View[first].tokens, rl.View[second].tokens;
    firstOutcomes, secondOutcomes := [], [];
    var i := 0;
    while i < n
      invariant i <= n
      invariant rl.Valid() && fresh(rl.Repr - old(rl.Repr))
      invariant firstOutcomes == Admitted(i, t1) && secondOutcomes == Admitted(i, t2)
      invariant first in rl.View && Settled(rl.View[first], now) && rl.View[first].tokens == t1 - Min(i, t1)
      invariant second in rl.View && Settled(rl.View[second], now) && rl.View[second].tokens == t2 - Min(i, t2)
    {
      var a, b := RequestPair(rl, first, second, now);
      AdmittedSnoc(i, t1);
      AdmittedSnoc(i, t2);
      firstOutcomes, secondOutcomes := firstOutcomes + [a], secondOutcomes + [b];
      i := i + 1;
    }
  }

  /**
   * Requests at one instant alternating between two keys whose buckets (stored, or about
   * to be created) are settled there, the first one holding `n` tokens: the first key is
   * admitted every time, the second while its own tokens last.
   */
  method InterleavedBursts<K(==,!new)>(rl: RateLimiter<K>, first: K, second: K, now: nat, n: nat)
    returns (firstOutcomes: seq<bool>, secondOutcomes: seq<bool>)
    requires rl.Valid() && first != second
    requires var e := rl.Entry(first, rl.defaultBucketSize, rl.defaultRefillRate, now);
      Settled(e, now) && e.tokens == n
    requires Settled(rl.Entry(second, rl.defaultBucketSize, rl.defaultRefillRate, now), now)
    modifies rl.Repr
    ensures rl.Valid() && fresh(rl.Repr - old(rl.Repr))
    ensures firstOutcomes == Admitted(n, n)
    ensures secondOutcomes == Admitted(n, old(rl.Entry(second, rl.defaultBucketSize, rl.defaultRefillRate, now)).tokens)
  {
    ghost var t := rl.Entry(second, rl.defaultBucketSize, rl.defaultRefillRate, now).tokens;
    if n == 0 {
      firstOutcomes, secondOutcomes := [], [];
      return;
    }
    var a, b := RequestPairSettled(rl, first, second, now);
    var restA, restB := InterleavedStored(rl, first, second, now, n - 1);
    firstOutcomes, secondOutcomes := [a] + restA, [b] + restB;
    AdmittedCons(n, n);
    AdmittedCons(n, t);
  }

  /**
   * test_vip (src/lib.rs:268-292): after `set_vip` gives a new key a larger bucket, that key
   * is admitted on every one of `vipSize` requests at one instant, while an ordinary key
   * asked in between is admitted only on its first `size` requests.
   */
  method VipScenario(size: nat, rate: nat, interval: nat, vipSize: nat, vipRate: nat, now: nat)
    returns (vip: seq<bool>, normal: seq<bool>)
    requires interval > 0
    ensures vip == seq(vipSize, _ => true)
    ensures normal == Admitted(vipSize, size)
  {
    var rl := new RateLimiter<Name>(size, rate, interval);
    SetVipFresh(rl, Waffle, vipSize, vipRate, now);
    assert Elliot !in rl.View - {Waffle};
    vip, normal := InterleavedBursts(rl, Waffle, Elliot, now, vipSize);
  }

  /**
   * One request for a key the limiter has not seen: it gets the default bucket, anchored at
   * `now`, and the request is admitted exactly when the default capacity is positive.
   */
  method RequestFresh<K(==,!new)>(rl: RateLimiter<K>, key: K, now: nat) returns (allowed: bool)
    requires rl.Valid() && key !in rl.View
    modifies rl.Repr
    ensures rl.Valid() && fresh(rl.Repr - old(rl.Repr))
    ensures allowed <==> rl.defaultBucketSize > 0
    ensures rl.View.Keys == old(rl.View.Keys) + {key} && rl.View - {key} == old(rl.View) - {key}
    ensures rl.View[key].size == rl.defaultBucketSize && rl.View[key].lastFilled == now
  {
    allowed := RequestSettled(rl, key, now);
    forall k | k != key
      ensures k in rl.View <==> k in old(rl.View)
    {
      AgreeElsewhere(rl.View, old(rl.View), key, k);
    }
  }

  /**
   * `set_vip` on a key that already has a bucket refills it but keeps its size and rate
   * (src/lib.rs:114-132), unlike what the doc comment at src/lib.rs:106 says: a burst after
   * the upgrade is still admitted only up to the default capacity.
   */
  method VipOnKnownKey(size: nat, rate: nat, interval: nat, vipSize: nat, vipRate: nat, t0: nat, t1: nat)
    returns (outcomes: seq<bool>)
    requires interval > 0
    ensures outcomes == Admitted(vipSize, size)
  {
    var rl := new RateLimiter<Name>(size, rate, interval);
    var _ := RequestFresh(rl, Elliot, t0);
    rl.SetVip(Elliot, vipSize, vipRate, t1);
    outcomes := BurstSettled(rl, Elliot, t1, vipSize);
  }

  /** A prune when the limiter holds one stale and one recent bucket keeps just the recent one. */
  method PruneKeepsRecent<K(==,!new)>(rl: RateLimiter<K>, stale: K, recent: K, age: nat, now: nat)
    requires rl.Valid() && stale != recent && rl.View.Keys == {stale, recent}
    requires Elapsed(rl.View[stale].lastFilled, now) > age && Elapsed(rl.View[recent].lastFilled, now) <= age
    modifies rl
    ensures rl.Valid() && rl.Repr == old(rl.Repr)
    ensures rl.buckets.Keys == {recent} && rl.View[recent] == old(rl.View[recent])
  {
    rl.Prune(age, now);
    assert stale !in rl.View && recent in rl.View;
  }

  /** A prune when the limiter holds one stale bucket leaves it empty. */
  method PruneDropsLast<K(==,!new)>(rl: RateLimiter<K>, key: K, age: nat, now: nat)
    requires rl.Valid() && rl.View.Keys == {key} && Elapsed(rl.View[key].lastFilled, now) > age
    modifies rl
    ensures rl.Valid() && rl.Repr == old(rl.Repr)
    ensures rl.buckets.Keys == {}
  {
    rl.Prune(age, now);
    assert key !in rl.View;
  }

  /**
   * test_prune (src/lib.rs:305-321): one key is requested, then after a pause of at least
   * `age` another; a prune right after that drops only the first bucket, and a prune a
   * further `age` later drops the second one too.
   */
  method PruneScenario(size: nat, rate: nat, interval: nat, age: nat, t0: nat, t1: nat, t2: nat, t3: nat)
    returns (before: nat, afterFirst: nat, afterSecond: nat)
    requires interval > 0
    requires t0 + age <= t1 < t2 <= t1 + age && t2 + age <= t3
    ensures before == 1 && afterFirst == 1 && afterSecond == 0
  {
    var rl := new RateLimiter<Name>(size, rate, interval);
    var _ := RequestFresh(rl, Lillo, t0);
    assert rl.buckets.Keys == {Lillo};
    before := |rl.buckets|;
    ghost var afterLillo := rl.View;
    var _ := RequestFresh(rl, Dawn, t1);
    AgreeElsewhere(rl.View, afterLillo, Dawn, Lillo);
    PruneKeepsRecent(rl, Lillo, Dawn, age, t2);
    afterFirst := |rl.buckets|;
    PruneDropsLast(rl, Dawn, age, t3);
    afterSecond := |rl.buckets|;
  }
}
