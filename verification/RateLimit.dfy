/**
 The fixed-window login limiter: a capped map of counters, pruned when it is full,
 with one shared overflow bucket for the callers that still find no room.

 The clock is a parameter: each call reads it once, in nanoseconds.
 */
module RateLimit {
  import opened Clock

  /** Hard cap on tracked keys. */
  const MAX_ENTRIES: nat := 10_000

  /** Size of the overflow bucket as a multiple of `maxAttempts`. */
  const OVERFLOW_FACTOR: nat := 10

  const U32_MAX: nat := 0xFFFF_FFFF

  /** Attempts charged since the window opened at `start`. */
  datatype Counter = Counter(count: nat, start: Time)

  datatype Limits = Limits(maxAttempts: nat, windowSecs: nat, maxEntries: nat) {

    /** The constants both login limiters are built with satisfy this. */
    predicate Valid() {
      1 <= maxAttempts <= U32_MAX && 1 <= windowSecs
    }

    function OverflowCap(): nat {
      if maxAttempts * OVERFLOW_FACTOR <= U32_MAX then maxAttempts * OVERFLOW_FACTOR else U32_MAX
    }

    /** Length of one window in clock units. */
    function Window(): nat {
      windowSecs * 1_000_000_000
    }
  }

  datatype Buckets<K> = Buckets(perKey: map<K, Counter>, overflow: Counter)

  // ----- specification -----

  predicate Expired(c: Counter, windowSecs: nat, now: Time) {
    ElapsedSecs(c.start, now) >= windowSecs
  }

  function Charge(c: Counter, max: nat, windowSecs: nat, now: Time): (Counter, bool) {
    if Expired(c, windowSecs, now) then (Counter(1, now), true)
    else if c.count >= max then (c, false)
    else (c.(count := c.count + 1), true)
  }

  function Prune<K>(m: map<K, Counter>, windowSecs: nat, now: Time): map<K, Counter> {
    map k | k in m && !Expired(m[k], windowSecs, now) :: m[k]
  }

  /** The map is full of live windows and `key` has none: the shared bucket is charged. */
  predicate Overflows<K>(l: Limits, b: Buckets<K>, key: K, now: Time) {
    && |b.perKey| >= l.maxEntries
    && key !in b.perKey
    && |Prune(b.perKey, l.windowSecs, now)| >= l.maxEntries
  }

  /** The map `key` is looked up in: pruned first if it is full and lacks `key`. */
  function Kept<K>(l: Limits, b: Buckets<K>, key: K, now: Time): map<K, Counter> {
    if |b.perKey| >= l.maxEntries && key !in b.perKey
    then Prune(b.perKey, l.windowSecs, now)
    else b.perKey
  }

  /** `key`'s own counter, opened now when it has none. */
  function EntryOr<K>(m: map<K, Counter>, key: K, now: Time): Counter {
    if key in m then m[key] else Counter(0, now)
  }

  function Acquire<K>(l: Limits, b: Buckets<K>, key: K, now: Time): (Buckets<K>, bool) {
    var kept := Kept(l, b, key, now);
    if Overflows(l, b, key, now) then
      var (c, ok) := Charge(b.overflow, l.OverflowCap(), l.windowSecs, now);
      (Buckets(kept, c), ok)
    else
      var (c, ok) := Charge(EntryOr(kept, key, now), l.maxAttempts, l.windowSecs, now);
      (Buckets(kept[key := c], b.overflow), ok)
  }

  function Refund(c: Counter): Counter {
    c.(count := if c.count == 0 then 0 else c.count - 1)
  }

  function Release<K>(b: Buckets<K>, key: K): Buckets<K> {
    if key in b.perKey then
      var c := Refund(b.perKey[key]);
      b.(perKey := if c.count == 0 then b.perKey - {key} else b.perKey[key := c])
    else
      b.(overflow := Refund(b.overflow))
  }

  function Clear<K>(b: Buckets<K>, key: K): Buckets<K> {
    b.(perKey := b.perKey - {key})
  }

  // ----- implementation -----

  class RateLimiter<K(==)> {
    const limits: Limits
    var perKey: map<K, Counter>
    var overflow: Counter

    ghost function View(): Buckets<K>
      reads this
    {
      Buckets(perKey, overflow)
    }

    constructor (maxAttempts: nat, windowSecs: nat, now: Time)
      ensures limits == Limits(maxAttempts, windowSecs, MAX_ENTRIES)
      ensures View() == Buckets(map[], Counter(0, now))
    {
      limits := Limits(maxAttempts, windowSecs, MAX_ENTRIES);
      perKey := map[];
      overflow := Counter(0, now);
    }

    /** Reserves an attempt for `key`. */
    method TryAcquire(key: K, now: Time) returns (allowed: bool)
      modifies this
      ensures (View(), allowed) == Acquire(limits, old(View()), key, now)
    {
      if |perKey| >= limits.maxEntries && key !in perKey {
        perKey := map k | k in perKey && !Expired(perKey[k], limits.windowSecs, now) :: perKey[k];
        if |perKey| >= limits.maxEntries {
          var (c, ok) := Charge(overflow, limits.OverflowCap(), limits.windowSecs, now);
          overflow := c;
          return ok;
        }
      }
      ghost var kept := perKey;
      if key !in perKey {
        perKey := perKey[key := Counter(0, now)];
      }
      var (c, ok) := Charge(perKey[key], limits.maxAttempts, limits.windowSecs, now);
      perKey := perKey[key := c];
      assert perKey == kept[key := c];
      return ok;
    }

    /** Hands back the attempt reserved by `TryAcquire` after a successful login. */
    method GiveBack(key: K)
      modifies this
      ensures View() == Release(old(View()), key)
    {
      if key in perKey {
        perKey := perKey[key := Refund(perKey[key])];
        if perKey[key].count == 0 {
          perKey := perKey - {key};
        }
        return;
      }
      overflow := Refund(overflow);
    }

    /** Drops `key`'s bucket: the account limiter's success path. */
    method Drop(key: K)
      modifies this
      ensures View() == Clear(old(View()), key)
    {
      perKey := perKey - {key};
    }
  }
}
