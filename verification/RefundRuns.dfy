/** What an attempt costs its caller and what a refund gives back, counted on the run. */
module RefundRuns {
  import opened Clock
  import opened RateLimit
  import opened RateLimitRuns

  // ----- one attempt, and its refund -----

  /** `c` was opened less than a window ago. */
  predicate Running(l: Limits, c: Counter, at: Time) {
    at - c.start < l.windowSecs * 1_000_000_000
  }

  /**
   When an attempt is admitted: with a bucket of one's own while its window runs, up to the limit;
   without one, or past its window, always, unless the map is full of running windows; then as
   long as the shared bucket's window has expired or has attempts left.
   */
  lemma AdmittedIff<K>(l: Limits, b: Buckets<K>, k: K, at: Time, before: Time)
    requires l.Valid() && Inv(l, b, before) && before <= at
    ensures var room := k in b.perKey || |b.perKey| < l.maxEntries
                        || exists j :: j in b.perKey && !Running(l, b.perKey[j], at);
            var own := k !in b.perKey || !Running(l, b.perKey[k], at) || b.perKey[k].count < l.maxAttempts;
            var most := if 10 * l.maxAttempts <= 0xFFFF_FFFF then 10 * l.maxAttempts else 0xFFFF_FFFF;
            var shared := !Running(l, b.overflow, at) || b.overflow.count < most;
            Step(l, b, TryAcquire(k, at)).1 <==> if room then own else shared
  {
    RoomIff(l, b, k, at);
    if k in b.perKey {
      ExpiredIff(b.perKey[k], l.windowSecs, at);
    }
    ExpiredIff(b.overflow, l.windowSecs, at);
  }

  lemma RoomIff<K>(l: Limits, b: Buckets<K>, k: K, at: Time)
    requires l.Valid() && |b.perKey| <= l.maxEntries && forall j :: j in b.perKey ==> b.perKey[j].start <= at
    ensures Overflows(l, b, k, at) <==>
              && k !in b.perKey && |b.perKey| == l.maxEntries
              && forall j :: j in b.perKey ==> Running(l, b.perKey[j], at)
  {
    PruneSize(b.perKey, l.windowSecs, at);
    forall j | j in b.perKey ensures Expired(b.perKey[j], l.windowSecs, at) <==> !Running(l, b.perKey[j], at) {
      ExpiredIff(b.perKey[j], l.windowSecs, at);
    }
    if forall j :: j in b.perKey ==> Running(l, b.perKey[j], at) {
      assert Prune(b.perKey, l.windowSecs, at) == b.perKey;
    }
  }

  /**
   An admitted attempt and its refund cancel out. A caller whose window was running has the count it
   had; one without a bucket, or past its window, has none. If the attempt was charged to the shared
   bucket, that is the one that gets it back.
   */
  lemma RefundUndoes<K>(l: Limits, b: Buckets<K>, k: K, at: Time, later: Time, before: Time)
    requires l.Valid() && Inv(l, b, before) && before <= at && Step(l, b, TryAcquire(k, at)).1
    ensures var after := Step(l, Step(l, b, TryAcquire(k, at)).0, Release(k, later)).0;
            if Overflows(l, b, k, at) then
              && k !in after.perKey
              && after.overflow == (if Running(l, b.overflow, at) then b.overflow else Counter(0, at))
            else
              && after.overflow == b.overflow
              && (if k in b.perKey && Running(l, b.perKey[k], at) && b.perKey[k].count > 0
                  then k in after.perKey && after.perKey[k] == b.perKey[k]
                  else k !in after.perKey)
  {
    if k in b.perKey {
      ExpiredIff(b.perKey[k], l.windowSecs, at);
    }
    ExpiredIff(b.overflow, l.windowSecs, at);
  }

  /** A refund or a clear touches no other caller's bucket, and a clear not the shared one. */
  lemma OthersUntouched<K>(l: Limits, b: Buckets<K>, k: K, at: Time, other: K)
    requires other != k
    ensures var r, c := Step(l, b, Release(k, at)).0, Step(l, b, Clear(k, at)).0;
            && (other in r.perKey <==> other in b.perKey) && (other in r.perKey ==> r.perKey[other] == b.perKey[other])
            && (other in c.perKey <==> other in b.perKey) && (other in c.perKey ==> c.perKey[other] == b.perKey[other])
            && k !in c.perKey && c.overflow == b.overflow
  {
  }

  // ----- the count, told from the run -----

  /** What call `n` adds to the count of `k`: an admitted attempt of its own one, a refund minus one. */
  ghost function Entry<K>(l: Limits, created: Time, ops: seq<Op<K>>, n: nat, k: K): int
    requires n < |ops|
  {
    if ops[n].key != k then 0
    else
      match ops[n]
      case TryAcquire(_, _) => if Answer(l, created, ops, n) then 1 else 0
      case Release(_, _) => -1
      case Clear(_, _) => 0
  }

  /** The entries of `k` from call `j` on. */
  ghost function Balance<K>(l: Limits, created: Time, ops: seq<Op<K>>, j: nat, k: K): int {
    if |ops| <= j then 0
    else
      var n := |ops| - 1;
      Balance(l, created, ops[..n], j, k) + Entry(l, created, ops, n, k)
  }

  /** Call `j` opened the window that `c` counts, and no later call of `k` cleared or outlived it. */
  ghost predicate OpenedBy<K>(l: Limits, ops: seq<Op<K>>, j: nat, k: K, c: Counter) {
    && j < |ops| && ops[j] == TryAcquire(k, c.start)
    && forall i :: j < i < |ops| && ops[i].key == k ==>
         !ops[i].Clear? && (ops[i].TryAcquire? ==> Running(l, c, ops[i].at))
  }

  lemma StillOpen<K>(l: Limits, created: Time, ops: seq<Op<K>>, j: nat, k: K, c: Counter)
    requires ops != [] && OpenedBy(l, ops[..|ops| - 1], j, k, c)
    requires var last := ops[|ops| - 1];
             last.key == k ==> !last.Clear? && (last.TryAcquire? ==> Running(l, c, last.at))
    ensures OpenedBy(l, ops, j, k, c)
  {
    var p := ops[..|ops| - 1];
    forall i | j < i < |ops| && ops[i].key == k
      ensures !ops[i].Clear? && (ops[i].TryAcquire? ==> Running(l, c, ops[i].at))
    {
      if i < |p| {
        assert p[i] == ops[i];
      }
    }
  }

  lemma KeptCounter<K>(l: Limits, b: Buckets<K>, op: Op<K>, k: K)
    requires k in Step(l, b, op).0.perKey && op.key != k
    ensures k in b.perKey && b.perKey[k] == Step(l, b, op).0.perKey[k]
  {
  }

  /** What one call of `k` makes of its counter. */
  lemma OwnCounter<K>(l: Limits, b: Buckets<K>, op: Op<K>, k: K)
    requires l.Valid() && k in Step(l, b, op).0.perKey && op.key == k
    requires op.TryAcquire? && k in b.perKey ==> b.perKey[k].start <= op.at
    ensures var c := Step(l, b, op).0.perKey[k];
            match op
            case TryAcquire(_, at) =>
              if k in b.perKey && Running(l, b.perKey[k], at)
              then c == Counter(b.perKey[k].count + (if Step(l, b, op).1 then 1 else 0), b.perKey[k].start)
              else c == Counter(1, at) && Step(l, b, op).1
            case Release(_, _) =>
              k in b.perKey && c.start == b.perKey[k].start && c.count == b.perKey[k].count - 1 && c.count > 0
            case Clear(_, _) => false
  {
    if op.TryAcquire? && k in b.perKey {
      ExpiredIff(b.perKey[k], l.windowSecs, op.at);
    }
  }

  /**
   In every run, a caller's count is its admitted attempts minus its refunds since the attempt that
   opened its window: nothing else is charged to it, and it has no bucket before the count is back
   at zero.
   */
  lemma {:induction false} CountIsBalance<K>(l: Limits, created: Time, ops: seq<Op<K>>, k: K) returns (j: nat)
    requires l.Valid() && Timed(created, ops) && k in After(l, created, ops).perKey
    ensures var c := After(l, created, ops).perKey[k];
            OpenedBy(l, ops, j, k, c) && c.count == Balance(l, created, ops, j, k) && c.count > 0
    decreases |ops|
  {
    var n := |ops| - 1;
    var b, op := After(l, created, ops[..n]), ops[n];
    StartsInPast(l, created, ops, n);
    TimedPrefix(created, ops, n);
    if op.key != k {
      KeptCounter(l, b, op, k);
      j := CountIsBalance(l, created, ops[..n], k);
      StillOpen(l, created, ops, j, k, b.perKey[k]);
    } else {
      OwnCounter(l, b, op, k);
      if op.TryAcquire? && !(k in b.perKey && Running(l, b.perKey[k], op.at)) {
        j := n;
        assert Balance(l, created, ops[..n], n, k) == 0;
      } else {
        j := CountIsBalance(l, created, ops[..n], k);
        StillOpen(l, created, ops, j, k, b.perKey[k]);
      }
    }
  }
}
