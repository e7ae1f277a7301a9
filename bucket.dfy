/**
 * `Bucket` (src/lib.rs:15-29, 161-198): one key's token bucket, whose `refill` and
 * `request` update its fields in place. `State()` reads the fields as a value of
 * `TokenBucket.BucketState`, and each method is proved to move that value exactly as
 * the corresponding function of `TokenBucket` does.
 */
module Buckets {
  import opened TokenBucket

  class Bucket {
    var size: nat
    var tokens: nat
    var refillRate: nat
    var refillInterval: nat  // nanoseconds
    var lastFilled: nat      // nanoseconds
    var counters: Stats

    ghost function State(): BucketState
      reads this
    {
      BucketState(size, tokens, refillRate, refillInterval, lastFilled, counters)
    }

    ghost predicate Valid()
      reads this
    {
      State().Valid()
    }

    /** The bucket the limiter inserts for a key it has not seen: full and anchored at `now`. */
    constructor (size: nat, refillRate: nat, refillInterval: nat, now: nat)
      requires refillInterval > 0
      ensures Valid()
      ensures State() == Full(size, refillRate, refillInterval, now)
    {
      this.size := size;
      this.tokens := size;
      this.refillRate := refillRate;
      this.refillInterval := refillInterval;
      this.lastFilled := now;
      this.counters := NoRequests;
    }

    /** Credits the whole intervals since `lastFilled`, capped at `size`, and re-anchors. */
    method Refill(now: nat)
      requires Valid()
      modifies this
      ensures Valid()
      ensures State() == Refilled(old(State()), now)
    {
      var timePassed := if lastFilled <= now then now - lastFilled else 0;
      var intervalsPassed := timePassed / refillInterval;
      var tokensToAdd := intervalsPassed * refillRate;
      tokens := Min(tokens + tokensToAdd, size);
      // anchor at `now` minus the part of an interval not yet credited
      var remainder := timePassed % refillInterval;
      lastFilled := now - remainder;
    }

    /** Refills, then admits by taking one token, or denies when none is left. */
    method Request(now: nat) returns (allowed: bool)
      requires Valid()
      modifies this
      ensures Valid()
      ensures (allowed, State()) == Requested(old(State()), now)
    {
      Refill(now);
      if tokens > 0 {
        tokens := tokens - 1;
        counters := counters.(requestsAllowed := counters.requestsAllowed + 1);
        allowed := true;
      } else {
        counters := counters.(requestsDenied := counters.requestsDenied + 1);
        allowed := false;
      }
    }
  }
}
