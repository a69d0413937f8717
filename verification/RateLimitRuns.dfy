/** What the login limiter guarantees over whole runs. */
module RateLimitRuns {
  import opened Clock
  import opened RateLimit

  datatype Op<K> = TryAcquire(key: K, at: Time) | Release(key: K, at: Time) | Clear(key: K, at: Time)

  /** One call on the capped limiter, with its answer (`true` for calls that return nothing). */
  ghost function Step<K>(l: Limits, b: Buckets<K>, op: Op<K>): (Buckets<K>, bool) {
    match op
    case TryAcquire(k, at) => Acquire(l, b, k, at)
    case Release(k, _) => (RateLimit.Release(b, k), true)
    case Clear(k, _) => (RateLimit.Clear(b, k), true)
  }

  ghost function Fresh<K>(created: Time): Buckets<K> {
    Buckets(map[], Counter(0, created))
  }

  /** The buckets after the calls `ops` on a limiter made at `created`. */
  ghost function After<K>(l: Limits, created: Time, ops: seq<Op<K>>): Buckets<K> {
    if ops == [] then Fresh(created)
    else Step(l, After(l, created, ops[..|ops| - 1]), ops[|ops| - 1]).0
  }

  /** What call `i` of the run answered. */
  ghost function Answer<K>(l: Limits, created: Time, ops: seq<Op<K>>, i: nat): bool
    requires i < |ops|
  {
    Step(l, After(l, created, ops[..i]), ops[i]).1
  }

  /** The clock never runs backwards. */
  ghost predicate Timed<K>(created: Time, ops: seq<Op<K>>) {
    && (forall i :: 0 <= i < |ops| ==> created <= ops[i].at)
    && (forall i, j :: 0 <= i < j < |ops| ==> ops[i].at <= ops[j].at)
  }

  lemma TimedPrefix<K>(created: Time, ops: seq<Op<K>>, n: nat)
    requires Timed(created, ops) && n <= |ops|
    ensures Timed(created, ops[..n])
  {
  }

  ghost function LastTime<K>(created: Time, ops: seq<Op<K>>): Time {
    if ops == [] then created else ops[|ops| - 1].at
  }

  // ----- the state invariant -----

  lemma ExpiredIff(c: Counter, windowSecs: nat, now: Time)
    requires c.start <= now
    ensures Expired(c, windowSecs, now) <==> now - c.start >= windowSecs * 1_000_000_000
  {
  }

  /** Every counter is within its cap, opened in the past, and the map within its own cap. */
  ghost predicate Inv<K>(l: Limits, b: Buckets<K>, now: Time) {
    && |b.perKey| <= l.maxEntries
    && MapInv(l, b.perKey, now)
    && b.overflow.count <= l.OverflowCap()
    && b.overflow.start <= now
  }

  lemma PruneSize<K>(m: map<K, Counter>, windowSecs: nat, now: Time)
    ensures |Prune(m, windowSecs, now)| <= |m|
    ensures |Prune(m, windowSecs, now)| == |m| ==> Prune(m, windowSecs, now) == m
  {
    var p := Prune(m, windowSecs, now);
    assert p.Keys <= m.Keys;
    SubsetSize(p.Keys, m.Keys);
    assert |p| == |p.Keys| && |m| == |m.Keys|;
  }

  lemma SubsetSize<T>(a: set<T>, b: set<T>)
    requires a <= b
    ensures |a| <= |b|
    ensures |a| == |b| ==> a == b
  {
    assert b == a + (b - a);
  }

  lemma PutSize<K, V>(m: map<K, V>, k: K, v: V)
    ensures |m[k := v]| == |m| + if k in m then 0 else 1
  {
  }

  lemma RemoveSize<K, V>(m: map<K, V>, k: K)
    ensures |m - {k}| == |m| - if k in m then 1 else 0
  {
  }

  lemma ChargeWithinCap(c: Counter, max: nat, windowSecs: nat, now: Time)
    requires 1 <= max && c.count <= max && c.start <= now
    ensures Charge(c, max, windowSecs, now).0.count <= max
    ensures Charge(c, max, windowSecs, now).0.start <= now
  {
  }

  ghost predicate MapInv<K>(l: Limits, m: map<K, Counter>, now: Time) {
    forall k :: k in m ==> m[k].count <= l.maxAttempts && m[k].start <= now
  }

  lemma AcquireKeepsInv<K>(l: Limits, b: Buckets<K>, key: K, at: Time, before: Time)
    requires l.Valid() && Inv(l, b, before) && before <= at
    ensures Inv(l, Acquire(l, b, key, at).0, at)
  {
    var kept := Kept(l, b, key, at);
    PruneSize(b.perKey, l.windowSecs, at);
    assert MapInv(l, kept, at);
    if Overflows(l, b, key, at) {
      ChargeWithinCap(b.overflow, l.OverflowCap(), l.windowSecs, at);
    } else {
      var c := Charge(EntryOr(kept, key, at), l.maxAttempts, l.windowSecs, at).0;
      ChargeWithinCap(EntryOr(kept, key, at), l.maxAttempts, l.windowSecs, at);
      PutSize(kept, key, c);
      assert MapInv(l, kept[key := c], at);
    }
  }

  /** Removing or overwriting entries never exceeds the cap; a new key is added only below it. */
  lemma StepKeepsInv<K>(l: Limits, b: Buckets<K>, op: Op<K>, before: Time)
    requires l.Valid() && Inv(l, b, before) && before <= op.at
    ensures Inv(l, Step(l, b, op).0, op.at)
  {
    match op
    case TryAcquire(k, at) =>
      AcquireKeepsInv(l, b, k, at, before);
    case Release(k, _) =>
      if k in b.perKey {
        RemoveSize(b.perKey, k);
        PutSize(b.perKey, k, Refund(b.perKey[k]));
      }
    case Clear(k, _) =>
      RemoveSize(b.perKey, k);
  }

  /** In every run the map stays within `maxEntries` and every counter within its own cap. */
  lemma {:induction false} MapNeverExceedsCap<K>(l: Limits, created: Time, ops: seq<Op<K>>)
    requires l.Valid() && Timed(created, ops)
    ensures Inv(l, After(l, created, ops), LastTime(created, ops))
  {
    if ops != [] {
      var n := |ops| - 1;
      TimedPrefix(created, ops, n);
      MapNeverExceedsCap(l, created, ops[..n]);
      StepKeepsInv(l, After(l, created, ops[..n]), ops[n], LastTime(created, ops[..n]));
    }
  }

  // ----- the counting bound -----

  ghost predicate OnlyAcquires<K>(ops: seq<Op<K>>) {
    forall i :: 0 <= i < |ops| ==> ops[i].TryAcquire?
  }

  /** Attempts admitted at instants in `[from, from + window)`. */
  ghost function Admitted<K>(l: Limits, created: Time, ops: seq<Op<K>>, from: Time): nat {
    if ops == [] then 0
    else
      var n := |ops| - 1;
      Admitted(l, created, ops[..n], from)
      + if from <= ops[n].at < from + l.Window() && Answer(l, created, ops, n) then 1 else 0
  }

  /**
   The potential of one counter against an interval opening at `from`: what a window opened
   inside the interval has admitted, or minus what an older one can still admit.
   */
  ghost function Weight(c: Counter, from: Time, cap: nat): int {
    if c.start >= from then c.count else c.count - cap
  }

  ghost function Pick<K, V>(m: map<K, V>): (k: K)
    requires m != map[]
    ensures k in m
  {
    var k :| k in m; k
  }

  ghost function TotalWeight<K>(m: map<K, Counter>, from: Time, cap: nat): int
    decreases |m|
  {
    if m == map[] then 0
    else
      var k := Pick(m);
      RemoveSize(m, k);
      Weight(m[k], from, cap) + TotalWeight(m - {k}, from, cap)
  }

  lemma {:induction false} WeightSplit<K>(m: map<K, Counter>, k: K, from: Time, cap: nat)
    requires k in m
    ensures TotalWeight(m, from, cap) == Weight(m[k], from, cap) + TotalWeight(m - {k}, from, cap)
    decreases |m|
  {
    var j := Pick(m);
    if j != k {
      RemoveSize(m, j);
      RemoveSize(m, k);
      WeightSplit(m - {j}, k, from, cap);
      WeightSplit(m - {k}, j, from, cap);
      assert m - {j} - {k} == m - {k} - {j};
    }
  }

  lemma WeightUpdate<K>(m: map<K, Counter>, k: K, c: Counter, from: Time, cap: nat)
    ensures TotalWeight(m[k := c], from, cap)
         == TotalWeight(m, from, cap) + Weight(c, from, cap) - if k in m then Weight(m[k], from, cap) else 0
  {
    WeightSplit(m[k := c], k, from, cap);
    assert m[k := c] - {k} == m - {k};
    if k in m {
      WeightSplit(m, k, from, cap);
    } else {
      assert m - {k} == m;
    }
  }

  /** Each counter within its cap weighs between `-cap` (older) and `cap` (newer). */
  lemma {:induction false} WeightBounds<K>(m: map<K, Counter>, from: Time, cap: nat)
    requires forall k :: k in m ==> m[k].count <= cap
    ensures 0 - |m| * cap <= TotalWeight(m, from, cap) <= |m| * cap
    decreases |m|
  {
    if m != map[] {
      var k := Pick(m);
      RemoveSize(m, k);
      WeightBounds(m - {k}, from, cap);
      OneMore(|m - {k}|, cap);
    }
  }

  lemma OneMore(n: nat, cap: nat)
    ensures (n + 1) * cap == n * cap + cap
  {
  }

  lemma Scale(a: nat, b: nat, cap: nat)
    requires a <= b
    ensures a * cap <= b * cap
  {
  }

  /** Dropping entries that weigh nothing or less never lowers the total. */
  lemma {:induction false} WeightDrop<K>(m: map<K, Counter>, p: map<K, Counter>, from: Time, cap: nat)
    requires forall k :: k in p ==> k in m && p[k] == m[k]
    requires forall k :: k in m && k !in p ==> Weight(m[k], from, cap) <= 0
    ensures TotalWeight(m, from, cap) <= TotalWeight(p, from, cap)
    decreases |m|
  {
    if k :| k in m && k !in p {
      RemoveSize(m, k);
      WeightSplit(m, k, from, cap);
      WeightDrop(m - {k}, p, from, cap);
    } else {
      assert m == p;
    }
  }

  /** One attempt inside the interval never admits more than it adds to the potential. */
  lemma AcquirePaysForItself<K>(l: Limits, b: Buckets<K>, k: K, at: Time, before: Time, from: Time)
    requires l.Valid() && Inv(l, b, before) && before <= at && from <= at < from + l.Window()
    ensures Potential(l, b, from) + (if Acquire(l, b, k, at).1 then 1 else 0)
         <= Potential(l, Acquire(l, b, k, at).0, from)
  {
    var kept := Kept(l, b, k, at);
    forall j | j in b.perKey && j !in kept
      ensures Weight(b.perKey[j], from, l.maxAttempts) <= 0
    {
      ExpiredIff(b.perKey[j], l.windowSecs, at);
    }
    WeightDrop(b.perKey, kept, from, l.maxAttempts);
    if Overflows(l, b, k, at) {
      ExpiredIff(b.overflow, l.windowSecs, at);
    } else {
      var e := EntryOr(kept, k, at);
      ExpiredIff(e, l.windowSecs, at);
      WeightUpdate(kept, k, Charge(e, l.maxAttempts, l.windowSecs, at).0, from, l.maxAttempts);
    }
  }

  ghost function Potential<K>(l: Limits, b: Buckets<K>, from: Time): int {
    TotalWeight(b.perKey, from, l.maxAttempts) + Weight(b.overflow, from, l.OverflowCap())
  }

  /** What one set of full buckets holds. */
  function Capacity(l: Limits): nat {
    l.maxEntries * l.maxAttempts + l.OverflowCap()
  }

  lemma PotentialBounds<K>(l: Limits, b: Buckets<K>, now: Time, from: Time)
    requires Inv(l, b, now)
    ensures 0 - Capacity(l) <= Potential(l, b, from) <= Capacity(l)
  {
    WeightBounds(b.perKey, from, l.maxAttempts);
    Scale(|b.perKey|, l.maxEntries, l.maxAttempts);
  }

  lemma {:induction false} NoneAdmittedYet<K>(l: Limits, created: Time, ops: seq<Op<K>>, from: Time)
    requires Timed(created, ops) && (ops == [] || LastTime(created, ops) < from)
    ensures Admitted(l, created, ops, from) == 0
  {
    if ops != [] {
      TimedPrefix(created, ops, |ops| - 1);
      NoneAdmittedYet(l, created, ops[..|ops| - 1], from);
    }
  }

  lemma {:induction false} AdmittedWithinPotential<K>(l: Limits, created: Time, ops: seq<Op<K>>, from: Time)
    requires l.Valid() && Timed(created, ops) && OnlyAcquires(ops)
    requires LastTime(created, ops) < from + l.Window() || ops == []
    ensures Admitted(l, created, ops, from) <= Capacity(l) + Potential(l, After(l, created, ops), from)
  {
    MapNeverExceedsCap(l, created, ops);
    if ops == [] || LastTime(created, ops) < from {
      NoneAdmittedYet(l, created, ops, from);
      PotentialBounds(l, After(l, created, ops), LastTime(created, ops), from);
    } else {
      var n := |ops| - 1;
      TimedPrefix(created, ops, n);
      MapNeverExceedsCap(l, created, ops[..n]);
      AdmittedWithinPotential(l, created, ops[..n], from);
      AcquirePaysForItself(l, After(l, created, ops[..n]), ops[n].key, ops[n].at, LastTime(created, ops[..n]), from);
    }
  }

  /**
   In any run of attempts, over all keys together, no half-open interval of one window length
   admits more than twice what full buckets hold: the windows already open when it starts,
   and those opened inside it, which all live until it ends.
   */
  lemma {:induction false} AdmissionBound<K>(l: Limits, created: Time, ops: seq<Op<K>>, from: Time)
    requires l.Valid() && Timed(created, ops) && OnlyAcquires(ops)
    ensures Admitted(l, created, ops, from) <= 2 * ((l.maxEntries + OVERFLOW_FACTOR) * l.maxAttempts)
  {
    assert Capacity(l) <= (l.maxEntries + OVERFLOW_FACTOR) * l.maxAttempts;
    if ops == [] || LastTime(created, ops) < from + l.Window() {
      AdmittedWithinPotential(l, created, ops, from);
      MapNeverExceedsCap(l, created, ops);
      PotentialBounds(l, After(l, created, ops), LastTime(created, ops), from);
    } else {
      TimedPrefix(created, ops, |ops| - 1);
      AdmissionBound(l, created, ops[..|ops| - 1], from);
    }
  }

  /** A zero-second window has no bound at all: every attempt opens a fresh one. */
  lemma ZeroWindowAdmitsAll<K>(l: Limits, b: Buckets<K>, k: K, at: Time)
    requires l.windowSecs == 0
    ensures Acquire(l, b, k, at).1
  {
  }

  /** `n` attempts by one caller at one instant. */
  function Burst<K>(k: K, at: Time, n: nat): (ops: seq<Op<K>>)
    ensures |ops| == n && forall i :: 0 <= i < n ==> ops[i] == TryAcquire(k, at)
  {
    seq(n, i => TryAcquire(k, at))
  }

  lemma {:induction false} BurstFills<K>(l: Limits, k: K, at: Time, n: nat)
    requires l.windowSecs > 0 && l.maxEntries > 0 && n <= l.maxAttempts
    ensures After(l, at, Burst(k, at, n)).perKey == if n == 0 then map[] else map[k := Counter(n, at)]
  {
    if n > 0 {
      assert Burst(k, at, n)[..n - 1] == Burst(k, at, n - 1);
      BurstFills(l, k, at, n - 1);
    }
  }

  ghost predicate Refuses<K>(l: Limits, created: Time, ops: seq<Op<K>>) {
    Timed(created, ops) && exists i :: 0 <= i < |ops| && !Answer(l, created, ops, i)
  }

  /** A limiter that tracks anybody refuses somebody in some run if and only if its window is not empty. */
  lemma RefusesIff<K>(l: Limits, k: K, created: Time)
    requires l.maxEntries > 0
    ensures (exists ops: seq<Op<K>> :: Refuses(l, created, ops)) <==> l.windowSecs > 0
  {
    if l.windowSecs > 0 {
      var n := l.maxAttempts;
      var ops := Burst(k, created, n + 1);
      BurstFills(l, k, created, n);
      assert ops[..n] == Burst(k, created, n);
      assert !Answer(l, created, ops, n);
      assert Refuses(l, created, ops);
    } else {
      forall ops: seq<Op<K>>, i | 0 <= i < |ops| ensures Answer(l, created, ops, i) {
        if ops[i].TryAcquire? {
          ZeroWindowAdmitsAll(l, After(l, created, ops[..i]), ops[i].key, ops[i].at);
        }
      }
    }
  }

  // ----- a throttled caller cannot reset itself -----

  /** A live window that is used up survives any attempt unchanged, and refuses its own key. */
  lemma LiveWindowKept<K>(l: Limits, b: Buckets<K>, key: K, caller: K, at: Time)
    requires key in b.perKey && b.perKey[key].count >= l.maxAttempts
    requires b.perKey[key].start <= at < b.perKey[key].start + l.Window()
    ensures var m := Acquire(l, b, caller, at).0.perKey; key in m && m[key] == b.perKey[key]
    ensures caller == key ==> !Acquire(l, b, caller, at).1
  {
  }

  lemma AfterNext<K>(l: Limits, created: Time, ops: seq<Op<K>>, i: nat)
    requires i < |ops|
    ensures After(l, created, ops[..i + 1]) == Step(l, After(l, created, ops[..i]), ops[i]).0
  {
    assert ops[..i + 1][..i] == ops[..i];
  }

  lemma StartsInPast<K>(l: Limits, created: Time, ops: seq<Op<K>>, i: nat)
    requires l.Valid() && Timed(created, ops) && i < |ops|
    ensures Inv(l, After(l, created, ops[..i]), LastTime(created, ops[..i]))
    ensures LastTime(created, ops[..i]) <= ops[i].at
  {
    TimedPrefix(created, ops, i);
    MapNeverExceedsCap(l, created, ops[..i]);
  }

  /** `key` holds counter `c` after the first `i` calls. */
  ghost predicate Holds<K>(l: Limits, created: Time, ops: seq<Op<K>>, i: nat, key: K, c: Counter)
    requires i <= |ops|
  {
    var m := After(l, created, ops[..i]).perKey;
    key in m && m[key] == c
  }

  /**
   Once `key` has used its attempts, no attempts by anybody before its window ends, however
   many fresh keys they spray, change its counter or let it in.
   */
  lemma {:induction false} ThrottledStaysThrottled<K>(
      l: Limits, created: Time, ops: seq<Op<K>>, n: nat, i: nat, key: K, c: Counter)
    requires l.Valid() && Timed(created, ops) && n <= i < |ops|
    requires forall j :: n <= j <= i ==> ops[j].TryAcquire?
    requires Holds(l, created, ops, n, key, c)
    requires c.count >= l.maxAttempts && ops[i].at < c.start + l.Window()
    ensures Holds(l, created, ops, i, key, c)
    ensures ops[i].key == key ==> !Answer(l, created, ops, i)
    decreases i
  {
    if n < i {
      var j := i - 1;
      assert ops[j].at <= ops[i].at;
      ThrottledStaysThrottled(l, created, ops, n, j, key, c);
      StartsInPast(l, created, ops, j);
      LiveWindowKept(l, After(l, created, ops[..j]), key, ops[j].key, ops[j].at);
      AfterNext(l, created, ops, j);
    }
    StartsInPast(l, created, ops, i);
    LiveWindowKept(l, After(l, created, ops[..i]), key, ops[i].key, ops[i].at);
  }

  // ----- refinement of the unbounded limiter -----

  /** The limiter without a cap: one counter per key, kept for ever, no overflow bucket. */
  ghost function PlainStep<K>(l: Limits, m: map<K, Counter>, op: Op<K>): (map<K, Counter>, bool) {
    match op
    case TryAcquire(k, at) =>
      var (c, ok) := Charge(EntryOr(m, k, at), l.maxAttempts, l.windowSecs, at);
      (m[k := c], ok)
    case Release(k, _) =>
      if k in m then
        var c := Refund(m[k]);
        (if c.count == 0 then m - {k} else m[k := c], true)
      else (m, true)
    case Clear(k, _) => (m - {k}, true)
  }

  ghost function PlainAfter<K>(l: Limits, ops: seq<Op<K>>): map<K, Counter> {
    if ops == [] then map[]
    else PlainStep(l, PlainAfter(l, ops[..|ops| - 1]), ops[|ops| - 1]).0
  }

  ghost function PlainAnswer<K>(l: Limits, ops: seq<Op<K>>, i: nat): bool
    requires i < |ops|
  {
    PlainStep(l, PlainAfter(l, ops[..i]), ops[i]).1
  }

  /** The two maps agree, except that an expired window may be missing from the capped one. */
  ghost predicate Simulates<K>(l: Limits, b: Buckets<K>, m: map<K, Counter>, now: Time) {
    && (forall k :: k in b.perKey ==> k in m && m[k] == b.perKey[k])
    && (forall k :: k in m && k !in b.perKey ==> Expired(m[k], l.windowSecs, now))
    && (forall k :: k in m ==> m[k].start <= now)
  }

  /** Every attempt so far that found the map full could free a slot by pruning. */
  ghost predicate AlwaysRoom<K>(l: Limits, created: Time, ops: seq<Op<K>>) {
    forall i :: 0 <= i < |ops| && ops[i].TryAcquire? ==>
      !Overflows(l, After(l, created, ops[..i]), ops[i].key, ops[i].at)
  }

  lemma SimulatesLater<K>(l: Limits, b: Buckets<K>, m: map<K, Counter>, now: Time, later: Time)
    requires Simulates(l, b, m, now) && now <= later
    ensures Simulates(l, b, m, later)
  {
  }

  lemma SimulationStep<K>(l: Limits, b: Buckets<K>, m: map<K, Counter>, op: Op<K>)
    requires l.Valid() && Simulates(l, b, m, op.at)
    requires op.TryAcquire? ==> !Overflows(l, b, op.key, op.at)
    ensures Simulates(l, Step(l, b, op).0, PlainStep(l, m, op).0, op.at)
    ensures Step(l, b, op).1 == PlainStep(l, m, op).1
  {
  }

  lemma {:induction false} SimulationHolds<K>(l: Limits, created: Time, ops: seq<Op<K>>)
    requires l.Valid() && Timed(created, ops) && AlwaysRoom(l, created, ops)
    ensures Simulates(l, After(l, created, ops), PlainAfter(l, ops), LastTime(created, ops))
  {
    if ops != [] {
      var n := |ops| - 1;
      TimedPrefix(created, ops, n);
      forall i | 0 <= i < n ensures ops[..n][..i] == ops[..i] {
      }
      SimulationHolds(l, created, ops[..n]);
      SimulatesLater(l, After(l, created, ops[..n]), PlainAfter(l, ops[..n]), LastTime(created, ops[..n]), ops[n].at);
      SimulationStep(l, After(l, created, ops[..n]), PlainAfter(l, ops[..n]), ops[n]);
    }
  }

  lemma SimulationBefore<K>(l: Limits, created: Time, ops: seq<Op<K>>, i: nat)
    requires l.Valid() && Timed(created, ops) && i < |ops| && AlwaysRoom(l, created, ops[..i])
    ensures Simulates(l, After(l, created, ops[..i]), PlainAfter(l, ops[..i]), ops[i].at)
  {
    TimedPrefix(created, ops, i);
    SimulationHolds(l, created, ops[..i]);
    SimulatesLater(l, After(l, created, ops[..i]), PlainAfter(l, ops[..i]), LastTime(created, ops[..i]), ops[i].at);
  }

  /**
   As long as pruning frees a slot whenever one is needed, capping and pruning are invisible:
   every call of the run answers what the unbounded limiter answers.
   */
  lemma CappedRefinesUnbounded<K>(l: Limits, created: Time, ops: seq<Op<K>>, i: nat)
    requires l.Valid() && Timed(created, ops) && AlwaysRoom(l, created, ops) && i < |ops|
    ensures Answer(l, created, ops, i) == PlainAnswer(l, ops, i)
  {
    forall j | 0 <= j < i ensures ops[..i][..j] == ops[..j] {
    }
    SimulationBefore(l, created, ops, i);
    SimulationStep(l, After(l, created, ops[..i]), PlainAfter(l, ops[..i]), ops[i]);
  }

  /**
   The first attempt that finds no room is where the two part: the unbounded limiter always
   lets it in, the capped one exactly when the overflow bucket has an attempt left.
   */
  lemma FirstOverflow<K>(l: Limits, created: Time, ops: seq<Op<K>>, i: nat)
    requires l.Valid() && Timed(created, ops) && i < |ops| && AlwaysRoom(l, created, ops[..i])
    requires ops[i].TryAcquire? && Overflows(l, After(l, created, ops[..i]), ops[i].key, ops[i].at)
    ensures PlainAnswer(l, ops, i)
    ensures var o := After(l, created, ops[..i]).overflow;
            Answer(l, created, ops, i) <==>
              ops[i].at - o.start >= l.Window() || o.count < l.OverflowCap()
  {
    SimulationBefore(l, created, ops, i);
    MapNeverExceedsCap(l, created, ops[..i]);
    ExpiredIff(After(l, created, ops[..i]).overflow, l.windowSecs, ops[i].at);
    ExpiredIff(EntryOr(PlainAfter(l, ops[..i]), ops[i].key, ops[i].at), l.windowSecs, ops[i].at);
  }
}
