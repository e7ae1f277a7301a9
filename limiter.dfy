/**
 * `RateLimiter` (src/lib.rs:5-13, 36-159): a map from key to bucket, the default
 * bucket parameters and the global counters. The two mutexes of the source only
 * serialise calls; here every method is one atomic step. `View()` reads the map as
 * a map of bucket values, and each method states the new view and the new counters.
 */
module Limiter {
  import opened TokenBucket
  import opened Buckets

  /** The buckets that `prune` keeps: those whose anchor is at most `age` before `now`. */
  function Pruned<K(!new)>(m: map<K, BucketState>, age: nat, now: nat): (r: map<K, BucketState>)
    ensures forall k :: k in r <==> k in m && Elapsed(m[k].lastFilled, now) <= age
    ensures forall k :: k in r ==> r[k] == m[k]
  {
    map k | k in m && Elapsed(m[k].lastFilled, now) <= age :: m[k]
  }

  /**
   * `prune` measures idleness from the bucket's anchor, which a request leaves behind the
   * request's own time by the part of an interval not yet credited. When that part is more
   * than `age`, a prune at the very instant of the request drops the bucket just used.
   */
  lemma PruneMayDropJustRequested<K(!new)>(s: BucketState, key: K, age: nat, now: nat)
    requires s.Valid() && s.lastFilled <= now && (now - s.lastFilled) % s.refillInterval > age
    ensures Pruned(map[key := Requested(s, now).1], age, now) == map[]
  {
    var r := Requested(s, now).1;
    RefillBounds(s, now);
    assert Elapsed(r.lastFilled, now) > age;
    PrunedDropsStale(map[key := r], key, age, now);
  }

  /** A map whose only key is stale prunes to nothing. */
  lemma PrunedDropsStale<K(!new)>(m: map<K, BucketState>, key: K, age: nat, now: nat)
    requires m.Keys == {key} && Elapsed(m[key].lastFilled, now) > age
    ensures Pruned(m, age, now) == map[]
  {
    var p := Pruned(m, age, now);
    assert key !in p;
    assert p.Keys == {};
  }

  lemma UpdateTwice<K, V>(m: map<K, V>, k: K, a: V, b: V)
    ensures m[k := a][k := b] == m[k := b]
  {
  }

  lemma UpdateThenRemove<K, V>(m: map<K, V>, k: K, v: V)
    ensures m[k := v] - {k} == m - {k}
  {
  }

  /** Two maps that agree once `key` is removed agree on every other key. */
  lemma AgreeElsewhere<K, V>(m1: map<K, V>, m2: map<K, V>, key: K, k: K)
    requires m1 - {key} == m2 - {key} && k != key
    ensures k in m1 <==> k in m2
    ensures k in m1 ==> m1[k] == m2[k]
  {
    assert k in m1 <==> k in m1 - {key};
    assert k in m2 <==> k in m2 - {key};
    if k in m1 {
      assert m1[k] == (m1 - {key})[k];
    }
  }

  class RateLimiter<K(==,!new)> {
    const defaultBucketSize: nat
    const defaultRefillRate: nat
    const defaultRefillInterval: nat  // nanoseconds
    var buckets: map<K, Bucket>
    var counters: Stats
    // the buckets as values, and the objects the limiter owns
    ghost var View: map<K, BucketState>
    ghost var Repr: set<object>

    ghost predicate Valid()
      reads this, Repr
    {
      && this in Repr
      && defaultRefillInterval > 0
      && View.Keys == buckets.Keys
      && (forall k :: k in buckets ==> buckets[k] in Repr && buckets[k].State() == View[k] && View[k].Valid())
      // every key owns its own bucket
      && (forall k1, k2 :: k1 in buckets && k2 in buckets && k1 != k2 ==> buckets[k1] != buckets[k2])
    }

    /** The bucket stored for `key`, or the full one with this size and rate that would be inserted at `now`. */
    ghost function Entry(key: K, size: nat, refillRate: nat, now: nat): BucketState
      reads this
    {
      if key in View then View[key] else Full(size, refillRate, defaultRefillInterval, now)
    }

    /** `RateLimiter::new`; a zero interval is refused here rather than dividing by zero later. */
    constructor (defaultBucketSize: nat, defaultRefillRate: nat, defaultRefillInterval: nat)
      requires defaultRefillInterval > 0
      ensures Valid() && fresh(Repr)
      ensures this.defaultBucketSize == defaultBucketSize
      ensures this.defaultRefillRate == defaultRefillRate
      ensures this.defaultRefillInterval == defaultRefillInterval
      ensures View == map[] && counters == NoRequests
    {
      this.defaultBucketSize := defaultBucketSize;
      this.defaultRefillRate := defaultRefillRate;
      this.defaultRefillInterval := defaultRefillInterval;
      buckets := map[];
      counters := NoRequests;
      View := map[];
      Repr := {this};
    }

    /**
     * `entry(key).or_insert(...)`: the key's bucket, inserted first, full and anchored at
     * `now` with the given size and rate and the default interval, when the key is new.
     */
    method EntryOrInsert(key: K, size: nat, refillRate: nat, now: nat) returns (bucket: Bucket)
      requires Valid()
      modifies this
      ensures Valid() && fresh(Repr - old(Repr))
      ensures buckets == old(buckets)[key := bucket] && bucket in Repr
      ensures key !in old(buckets) ==> fresh(bucket)
      ensures bucket.State() == old(Entry(key, size, refillRate, now))
      ensures View == old(View)[key := bucket.State()]
      ensures counters == old(counters)
    {
      if key in buckets {
        bucket := buckets[key];
        assert buckets == buckets[key := bucket];
        assert View == View[key := bucket.State()];
      } else {
        bucket := new Bucket(size, refillRate, defaultRefillInterval, now);
        buckets := buckets[key := bucket];
        View := View[key := bucket.State()];
        Repr := Repr + {bucket};
      }
    }

    /** `Bucket::request` on the stored bucket of `key`; nothing else changes. */
    method RequestStored(key: K, now: nat) returns (allowed: bool)
      requires Valid() && key in View
      modifies this, buckets[key]
      ensures Valid() && Repr == old(Repr) && buckets == old(buckets)
      ensures allowed == Requested(old(View[key]), now).0
      ensures View == old(View)[key := Requested(old(View[key]), now).1]
      ensures counters == old(counters)
    {
      var bucket := buckets[key];
      allowed := bucket.Request(now);
      View := View[key := bucket.State()];
    }

    /**
     * Admits or denies one request for `key` at `now`, creating the key's bucket full with
     * the defaults when the key is new. Only that key's bucket changes, and exactly the
     * global counter matching the outcome goes up.
     */
    method Request(key: K, now: nat) returns (allowed: bool)
      requires Valid()
      modifies Repr
      ensures Valid() && fresh(Repr - old(Repr))
      ensures allowed == Requested(old(Entry(key, defaultBucketSize, defaultRefillRate, now)), now).0
      ensures View == old(View)[key := Requested(old(Entry(key, defaultBucketSize, defaultRefillRate, now)), now).1]
      ensures counters == old(counters).Record(allowed)
    {
      allowed := RequestBucket(key, now);
      Tally(allowed);
    }

    /** The bucket part of `request`: the key's bucket, inserted if new, serves one request. */
    method RequestBucket(key: K, now: nat) returns (allowed: bool)
      requires Valid()
      modifies Repr
      ensures Valid() && fresh(Repr - old(Repr))
      ensures allowed == Requested(old(Entry(key, defaultBucketSize, defaultRefillRate, now)), now).0
      ensures View == old(View)[key := Requested(old(Entry(key, defaultBucketSize, defaultRefillRate, now)), now).1]
      ensures counters == old(counters)
    {
      ghost var prior := Entry(key, defaultBucketSize, defaultRefillRate, now);
      var _ := EntryOrInsert(key, defaultBucketSize, defaultRefillRate, now);
      allowed := RequestStored(key, now);
      UpdateTwice(old(View), key, prior, Requested(prior, now).1);
    }

    /** Counts one more admitted or denied request in the global counters. */
    method Tally(allowed: bool)
      requires Valid()
      modifies this
      ensures Valid() && Repr == old(Repr) && buckets == old(buckets) && View == old(View)
      ensures counters == old(counters).Record(allowed)
    {
      if allowed {
        counters := counters.(requestsAllowed := counters.requestsAllowed + 1);
      } else {
        counters := counters.(requestsDenied := counters.requestsDenied + 1);
      }
    }

    /** Fills the stored bucket of `key` and anchors it at `now`; nothing else changes. */
    method RefreshStored(key: K, now: nat)
      requires Valid() && key in View
      modifies this, buckets[key]
      ensures Valid() && Repr == old(Repr) && buckets == old(buckets)
      ensures View == old(View)[key := Refreshed(old(View[key]), now)]
      ensures counters == old(counters)
    {
      var bucket := buckets[key];
      bucket.lastFilled := now;
      bucket.tokens := bucket.size;
      View := View[key := bucket.State()];
    }

    /**
     * `set_vip`: creates the key's bucket with the given size and rate (and the default
     * interval) when the key is new; in every case then fills it and anchors it at `now`.
     * An existing bucket keeps its own size and rate.
     */
    method SetVip(key: K, bucketSize: nat, refillRate: nat, now: nat)
      requires Valid()
      modifies Repr
      ensures Valid() && fresh(Repr - old(Repr))
      ensures View == old(View)[key := Refreshed(old(Entry(key, bucketSize, refillRate, now)), now)]
      ensures key in old(View) ==> SameParams(View[key], old(View)[key])
      ensures counters == old(counters)
    {
      ghost var prior := Entry(key, bucketSize, refillRate, now);
      var _ := EntryOrInsert(key, bucketSize, refillRate, now);
      RefreshStored(key, now);
      UpdateTwice(old(View), key, prior, Refreshed(prior, now));
    }

    /** `prune`: drops every bucket whose anchor is more than `age` before `now`. */
    method Prune(age: nat, now: nat)
      requires Valid()
      modifies this
      ensures Valid() && Repr == old(Repr)
      ensures View == Pruned(old(View), age, now)
      ensures counters == old(counters)
    {
      buckets := map k | k in buckets && Elapsed(buckets[k].lastFilled, now) <= age :: buckets[k];
      View := Pruned(View, age, now);
    }
  }
}
