/** What sessions guarantee over whole runs of lookups and prunes. */
module SessionRuns {
  import opened Clock
  import opened Options
  import opened Sessions

  // ----- the life of one session -----

  /** The row after lookups at `times`; a refused lookup leaves it alone. */
  ghost function After(s: Session, times: seq<Time>): Session {
    if times == [] then s
    else
      var n := |times| - 1;
      var r := After(s, times[..n]);
      if Refused(r, times[n]) then r else Touched(r, times[n])
  }

  ghost predicate Answers(s: Session, times: seq<Time>, i: nat)
    requires i < |times|
  {
    !Refused(After(s, times[..i]), times[i])
  }

  /** The renewal lookup `i` writes, if any. */
  ghost function RenewalAt(s: Session, times: seq<Time>, i: nat): Option<Renewal>
    requires i < |times|
  {
    var r := After(s, times[..i]);
    if Refused(r, times[i]) then None else RefreshedExpiry(r.createdAt, r.expiresAt, times[i])
  }

  ghost function Rewrites(s: Session, times: seq<Time>): nat {
    if times == [] then 0
    else
      var n := |times| - 1;
      Rewrites(s, times[..n]) + if RenewalAt(s, times, n).Some? then 1 else 0
  }

  ghost predicate Clocked(start: Time, times: seq<Time>) {
    && (forall i :: 0 <= i < |times| ==> start <= times[i])
    && (forall i, j :: 0 <= i < j < |times| ==> times[i] <= times[j])
  }

  /** The last accepted lookup among the first `i`, else the creation. */
  ghost function LastSuccess(s: Session, start: Time, times: seq<Time>, i: nat): Time
    requires i <= |times|
  {
    if i == 0 then start
    else if Answers(s, times, i - 1) then times[i - 1]
    else LastSuccess(s, start, times, i - 1)
  }

  /** `expiresAt` never exceeds the idle window from the last success, nor the cap. */
  lemma {:induction false} ExpiryBounds(user: int, first: Time, second: Time, times: seq<Time>)
    requires first <= second && Clocked(second, times)
    ensures var r := After(Opened(user, first, second), times);
            && r.userId == user && r.createdAt == Some(second)
            && r.expiresAt <= LastSuccess(Opened(user, first, second), second, times, |times|) + IDLE
            && r.expiresAt <= second + ABSOLUTE_MAX
            && LastSuccess(Opened(user, first, second), second, times, |times|)
               <= if times == [] then second else times[|times| - 1]
  {
    if times != [] {
      var n := |times| - 1;
      ExpiryBounds(user, first, second, times[..n]);
      LastSuccessPrefix(Opened(user, first, second), second, times, n);
    }
  }

  lemma {:induction false} LastSuccessPrefix(s: Session, start: Time, times: seq<Time>, n: nat)
    requires n <= |times|
    ensures LastSuccess(s, start, times[..n], n) == LastSuccess(s, start, times, n)
  {
    LastSuccessAgree(s, start, times, n, n);
  }

  lemma {:induction false} LastSuccessAgree(s: Session, start: Time, times: seq<Time>, n: nat, i: nat)
    requires i <= n <= |times|
    ensures LastSuccess(s, start, times[..n], i) == LastSuccess(s, start, times, i)
  {
    if i > 0 {
      assert times[..n][..i - 1] == times[..i - 1];
      LastSuccessAgree(s, start, times, n, i - 1);
    }
  }

  /** An opened session answers neither at or past the cap, nor 72 hours after its last success. */
  lemma NeverAnswersLate(user: int, first: Time, second: Time, times: seq<Time>, i: nat)
    requires first <= second && Clocked(second, times) && i < |times|
    requires var s := Opened(user, first, second);
             times[i] >= second + ABSOLUTE_MAX || times[i] >= LastSuccess(s, second, times, i) + IDLE
    ensures !Answers(Opened(user, first, second), times, i)
  {
    assert Clocked(second, times[..i]);
    ExpiryBounds(user, first, second, times[..i]);
    LastSuccessPrefix(Opened(user, first, second), second, times, i);
  }

  /** An opened session is never clamped. */
  lemma NeverClamped(user: int, first: Time, second: Time, times: seq<Time>, i: nat)
    requires first <= second && Clocked(second, times) && i < |times|
    ensures var r := RenewalAt(Opened(user, first, second), times, i);
            r.Some? ==> r.value.kind == Slid
  {
  }

  /** Every gap, the first one from opening, is under 36 hours. */
  ghost predicate SmallGaps(first: Time, times: seq<Time>) {
    && (times != [] ==> times[0] - first < HALF_IDLE)
    && (forall i :: 0 < i < |times| ==> times[i] - times[i - 1] < HALF_IDLE)
  }

  /** A lookup less than 36 hours after the previous one is accepted and keeps 36 hours in hand. */
  lemma UsedInTime(r: Session, created: Time, prev: Time, now: Time)
    requires r.createdAt == Some(created) && r.expiresAt <= created + ABSOLUTE_MAX
    requires r.expiresAt == created + ABSOLUTE_MAX || r.expiresAt - prev >= HALF_IDLE
    requires now - prev < HALF_IDLE && now < created + ABSOLUTE_MAX
    ensures !Refused(r, now)
    ensures var e := Touched(r, now).expiresAt;
            e == created + ABSOLUTE_MAX || e - now >= HALF_IDLE
  {
  }

  lemma FirstLookups(first: Time, second: Time, times: seq<Time>)
    requires Clocked(second, times) && SmallGaps(first, times) && times != []
    ensures var n := |times| - 1;
            && Clocked(second, times[..n]) && SmallGaps(first, times[..n])
            && (n > 0 ==> times[..n][n - 1] == times[n - 1] <= times[n])
            && times[n] - (if n == 0 then first else times[n - 1]) < HALF_IDLE
  {
  }

  lemma {:induction false} HoursInHand(user: int, first: Time, second: Time, times: seq<Time>)
    requires first <= second && Clocked(second, times) && SmallGaps(first, times)
    requires times != [] ==> times[|times| - 1] < second + ABSOLUTE_MAX
    ensures var e := After(Opened(user, first, second), times).expiresAt;
            e == second + ABSOLUTE_MAX || e - (if times == [] then first else times[|times| - 1]) >= HALF_IDLE
  {
    if times != [] {
      var n := |times| - 1;
      FirstLookups(first, second, times);
      HoursInHand(user, first, second, times[..n]);
      ExpiryBounds(user, first, second, times[..n]);
      UsedInTime(After(Opened(user, first, second), times[..n]), second, if n == 0 then first else times[n - 1], times[n]);
    }
  }

  lemma EarlierLookups(first: Time, second: Time, times: seq<Time>, i: nat)
    requires Clocked(second, times) && SmallGaps(first, times) && i < |times|
    ensures Clocked(second, times[..i]) && SmallGaps(first, times[..i])
    ensures i > 0 ==> times[..i][i - 1] == times[i - 1] <= times[i]
    ensures times[i] - (if i == 0 then first else times[i - 1]) < HALF_IDLE
  {
  }

  /** Used at least every 36 hours, a session answers every lookup before its cap. */
  lemma AnswersWhileUsed(user: int, first: Time, second: Time, times: seq<Time>, i: nat)
    requires first <= second && Clocked(second, times) && SmallGaps(first, times)
    requires i < |times| && times[i] < second + ABSOLUTE_MAX
    ensures Answers(Opened(user, first, second), times, i)
  {
    EarlierLookups(first, second, times, i);
    HoursInHand(user, first, second, times[..i]);
    ExpiryBounds(user, first, second, times[..i]);
    UsedInTime(After(Opened(user, first, second), times[..i]), second, if i == 0 then first else times[i - 1], times[i]);
  }

  /** Each rewrite that stays below the cap moves the expiry by more than 36 hours. */
  lemma {:induction false} RewriteBudget(user: int, first: Time, second: Time, times: seq<Time>)
    requires first <= second && Clocked(second, times)
    ensures var s := Opened(user, first, second);
            var k, e := Rewrites(s, times), After(s, times).expiresAt;
            && (k == 0 ==> e == first + IDLE)
            && (k > 0 ==> (k - 1) * (HALF_IDLE + 1) < second + ABSOLUTE_MAX - (first + IDLE))
            && (e < second + ABSOLUTE_MAX ==> k * (HALF_IDLE + 1) <= e - (first + IDLE))
  {
    if times != [] {
      var n := |times| - 1;
      RewriteBudget(user, first, second, times[..n]);
      ExpiryBounds(user, first, second, times[..n]);
    }
  }

  /** The most a session opened with clock readings `gap` nanoseconds apart is rewritten. */
  function MostRewrites(gap: nat): nat {
    if gap > 18 then 19 else 18
  }

  lemma RewritesBounded(user: int, first: Time, second: Time, times: seq<Time>)
    requires first <= second <= first + HALF_IDLE && Clocked(second, times)
    ensures Rewrites(Opened(user, first, second), times) <= MostRewrites(second - first)
  {
    RewriteBudget(user, first, second, times);
  }

  /** `n` lookups, each the moment its session passes the half of its idle window. */
  function Eager(first: Time, n: nat): (times: seq<Time>)
    ensures |times| == n && forall i :: 0 <= i < n ==> times[i] == first + (i + 1) * (HALF_IDLE + 1)
  {
    seq(n, i => first + (i + 1) * (HALF_IDLE + 1))
  }

  lemma EagerOrder(first: Time, i: nat, j: nat)
    requires i <= j
    ensures (i + 1) * (HALF_IDLE + 1) <= (j + 1) * (HALF_IDLE + 1)
    ensures HALF_IDLE + 1 <= (i + 1) * (HALF_IDLE + 1)
  {
  }

  lemma EagerClocked(first: Time, second: Time, n: nat)
    requires first <= second <= first + HALF_IDLE
    ensures Clocked(second, Eager(first, n))
  {
    var times := Eager(first, n);
    forall i, j | 0 <= i <= j < n ensures second <= times[i] <= times[j] {
      EagerOrder(first, i, j);
    }
  }

  /** Such lookups rewrite the row every time, as long as the cap was not reached before. */
  lemma {:induction false} EagerRewrites(user: int, first: Time, second: Time, n: nat)
    requires first <= second <= first + HALF_IDLE
    requires n > 0 ==> first + IDLE + (n - 1) * (HALF_IDLE + 1) < second + ABSOLUTE_MAX
    ensures var s := Opened(user, first, second);
            && Rewrites(s, Eager(first, n)) == n
            && After(s, Eager(first, n)).createdAt == Some(second)
            && After(s, Eager(first, n)).expiresAt == Min(first + IDLE + n * (HALF_IDLE + 1), second + ABSOLUTE_MAX)
  {
    if n > 0 {
      assert Eager(first, n)[..n - 1] == Eager(first, n - 1);
      EagerOrder(first, if n > 1 then n - 2 else 0, n - 1);
      EagerRewrites(user, first, second, n - 1);
    }
  }

  /** Some run of lookups rewrites the session `k` times. */
  ghost predicate Reaches(user: int, first: Time, second: Time, k: nat) {
    exists times :: Clocked(second, times) && Rewrites(Opened(user, first, second), times) == k
  }

  /**
   The bound is reached: 19 rewrites happen in some life of a session if and only if the two clock
   readings at its opening are more than 18 nanoseconds apart, and 18 in some life of any session.
   */
  lemma RewritesReached(user: int, first: Time, second: Time)
    requires first <= second <= first + HALF_IDLE
    ensures Reaches(user, first, second, 18)
    ensures Reaches(user, first, second, 19) <==> second - first > 18
  {
    EagerClocked(first, second, 18);
    EagerRewrites(user, first, second, 18);
    if second - first > 18 {
      EagerClocked(first, second, 19);
      EagerRewrites(user, first, second, 19);
    } else {
      forall times | Clocked(second, times) ensures Rewrites(Opened(user, first, second), times) != 19 {
        RewritesBounded(user, first, second, times);
      }
    }
  }

  // ----- one lookup, of any row -----

  /** `next` is 72 hours from now, or 30 days from creation if that is sooner. */
  predicate IsRenewal(s: Session, now: Time, next: Time) {
    var idle := now + 72 * 3_600_000_000_000;
    if s.createdAt.Some? && s.createdAt.value + 30 * 24 * 3_600_000_000_000 < idle
    then next == s.createdAt.value + 30 * 24 * 3_600_000_000_000
    else next == idle
  }

  /**
   A lookup answers exactly for a row that has not expired and is younger than 30 days, and then
   changes only that row: the expiry to the renewal if it was beyond it, or if less than 36 hours
   were left, but not once it has reached the end of the 30 days; the time last seen to now with the
   expiry, or if a minute old.
   */
  lemma LookupIs(t: Table, id: string, now: Time, next: Time)
    requires id in t ==> IsRenewal(t[id], now, next)
    ensures var (t', answer) := Lookup(t, id, now);
            var accepted := id in t && t[id].expiresAt > now
                            && (t[id].createdAt.Some? ==> now < t[id].createdAt.value + 30 * 24 * 3_600_000_000_000);
            && (answer.Some? <==> accepted) && (!accepted ==> t' == t)
            && t'.Keys == t.Keys && (forall other :: other in t && other != id ==> t'[other] == t[other])
            && (accepted ==>
                  var row, after := t[id], t'[id];
                  var ended := row.createdAt.Some? && row.expiresAt >= row.createdAt.value + 30 * 24 * 3_600_000_000_000;
                  var renewed := !ended && (row.expiresAt > next || row.expiresAt < now + 36 * 3_600_000_000_000);
                  && answer == Some(row.userId)
                  && after.userId == row.userId && after.createdAt == row.createdAt
                  && after.expiresAt == (if renewed then next else row.expiresAt)
                  && after.lastSeenAt == (if renewed || row.lastSeenAt.None? || now >= row.lastSeenAt.value + 60 * 1_000_000_000
                                         then Some(now) else row.lastSeenAt))
  {
  }

  /** The cleanup of one user removes that user's rows of 30 days and more, expired or not, and no others. */
  lemma CapPrunedIs(t: Table, user: int, now: Time, id: string)
    ensures id in CapPruned(t, user, now) <==>
              id in t && !(t[id].userId == user && t[id].createdAt.Some?
                           && now - t[id].createdAt.value >= 30 * 24 * 3_600_000_000_000)
    ensures id in CapPruned(t, user, now) ==> CapPruned(t, user, now)[id] == t[id]
  {
  }

  // ----- pruning is invisible -----

  /** The prune statement removes exactly the rows that a lookup refuses. */
  lemma PrunableIsRefused(s: Session, now: Time)
    ensures Prunable(s, now) <==> Refused(s, now)
  {
  }

  datatype Call =
    | Create(id: string, row: Session)
    | Find(id: string)
    | List(user: int)
    | Delete(id: string)
    | DeleteOwned(id: string, user: int)
    | DeleteUser(user: int, keep: Option<string>)
    | DeleteCapped(user: int)
    | Prune

  datatype Op = Op(call: Call, at: Time)

  datatype Answer = Done | Found(user: Option<int>) | Listed(live: Table)

  ghost function Step(t: Table, op: Op): (Table, Answer) {
    match op.call
    case Create(id, row) => (if id in t then t else t[id := row], Done)
    case Find(id) => var (t', u) := Lookup(t, id, op.at); (t', Found(u))
    case List(user) => (t, Listed(Live(t, user, op.at)))
    case Delete(id) => (t - {id}, Done)
    case DeleteOwned(id, user) => (if id in t && t[id].userId == user then t - {id} else t, Done)
    case DeleteUser(user, keep) => (WithoutUser(t, user, keep), Done)
    case DeleteCapped(user) => (CapPruned(t, user, op.at), Done)
    case Prune => (Pruned(t, op.at), Done)
  }

  /** The same call on a server that never prunes. */
  ghost function LazyStep(t: Table, op: Op): (Table, Answer) {
    if op.call.Prune? || op.call.DeleteCapped? then (t, Done) else Step(t, op)
  }

  ghost function TableAfter(ops: seq<Op>): Table {
    if ops == [] then map[] else Step(TableAfter(ops[..|ops| - 1]), ops[|ops| - 1]).0
  }

  ghost function LazyAfter(ops: seq<Op>): Table {
    if ops == [] then map[] else LazyStep(LazyAfter(ops[..|ops| - 1]), ops[|ops| - 1]).0
  }

  /** Time does not run backwards, and session ids, being random, are never given out twice. */
  ghost predicate Sound(ops: seq<Op>) {
    && (forall i, j :: 0 <= i < j < |ops| ==> ops[i].at <= ops[j].at)
    && (forall i, j :: 0 <= i < j < |ops| && ops[i].call.Create? && ops[j].call.Create? ==> ops[i].call.id != ops[j].call.id)
  }

  /** The pruned table is the other one without some rows that every lookup refuses from now on. */
  ghost predicate Pruning(t: Table, lazy: Table, now: Time) {
    && (forall id :: id in t ==> id in lazy && t[id] == lazy[id])
    && (forall id :: id in lazy && id !in t ==> Refused(lazy[id], now))
  }

  /** Refusal is permanent. */
  lemma RefusedStays(s: Session, now: Time, later: Time)
    requires Refused(s, now) && now <= later
    ensures Refused(s, later)
  {
  }

  lemma PruningLater(t: Table, lazy: Table, now: Time, later: Time)
    requires Pruning(t, lazy, now) && now <= later
    ensures Pruning(t, lazy, later)
  {
  }

  lemma PruningStep(t: Table, lazy: Table, op: Op)
    requires Pruning(t, lazy, op.at) && (op.call.Create? ==> op.call.id !in lazy)
    ensures Pruning(Step(t, op).0, LazyStep(lazy, op).0, op.at)
    ensures Step(t, op).1 == LazyStep(lazy, op).1
  {
    if op.call.List? {
      assert Live(t, op.call.user, op.at) == Live(lazy, op.call.user, op.at);
    }
  }

  /** Rows come from creations. */
  lemma {:induction false} RowsWereCreated(ops: seq<Op>, id: string)
    requires id in LazyAfter(ops)
    ensures exists i :: 0 <= i < |ops| && ops[i].call.Create? && ops[i].call.id == id
  {
    var n := |ops| - 1;
    if id in LazyAfter(ops[..n]) {
      RowsWereCreated(ops[..n], id);
      var i :| 0 <= i < n && ops[..n][i].call.Create? && ops[..n][i].call.id == id;
      assert ops[i].call.id == id;
    }
  }

  lemma {:induction false} PruningHolds(ops: seq<Op>)
    requires Sound(ops)
    ensures ops != [] ==> Pruning(TableAfter(ops), LazyAfter(ops), ops[|ops| - 1].at)
    decreases |ops|, 1
  {
    if ops != [] {
      var n := |ops| - 1;
      PruningReady(ops, n);
      PruningStep(TableAfter(ops[..n]), LazyAfter(ops[..n]), ops[n]);
    }
  }

  lemma {:induction false} PruningReady(ops: seq<Op>, n: nat)
    requires Sound(ops) && n < |ops|
    ensures Pruning(TableAfter(ops[..n]), LazyAfter(ops[..n]), ops[n].at)
    ensures ops[n].call.Create? ==> ops[n].call.id !in LazyAfter(ops[..n])
    decreases n, 2
  {
    assert Sound(ops[..n]);
    if n > 0 {
      PruningHolds(ops[..n]);
      PruningLater(TableAfter(ops[..n]), LazyAfter(ops[..n]), ops[n - 1].at, ops[n].at);
    }
    if ops[n].call.Create? && ops[n].call.id in LazyAfter(ops[..n]) {
      RowsWereCreated(ops[..n], ops[n].call.id);
    }
  }

  /** Prunes inserted anywhere in a run change no lookup and no listing. */
  lemma PruneIsInvisible(ops: seq<Op>, i: nat)
    requires Sound(ops) && i < |ops|
    ensures Step(TableAfter(ops[..i]), ops[i]).1 == LazyStep(LazyAfter(ops[..i]), ops[i]).1
  {
    PruningReady(ops, i);
    PruningStep(TableAfter(ops[..i]), LazyAfter(ops[..i]), ops[i]);
  }

  /** The rows a bulk revocation of `user` counts. */
  ghost function Counted(t: Table, user: int, keep: Option<string>): set<string> {
    set id | id in t && t[id].userId == user && keep != Some(id)
  }

  lemma CountIs(t: Table, user: int, keep: Option<string>)
    ensures |t| - |WithoutUser(t, user, keep)| == |Counted(t, user, keep)|
  {
    var w, c := WithoutUser(t, user, keep).Keys, Counted(t, user, keep);
    assert t.Keys == w + c && w !! c;
    assert |t.Keys| == |w| + |c|;
  }

  /**
   A bulk revocation reports the same count before and after a prune exactly when the prune
   leaves every row it counts.
   */
  lemma CountSurvivesPruneIff(t: Table, user: int, keep: Option<string>, now: Time)
    ensures |t| - |WithoutUser(t, user, keep)| == |Pruned(t, now)| - |WithoutUser(Pruned(t, now), user, keep)|
       <==> forall id :: id in t && t[id].userId == user && keep != Some(id) ==> !Prunable(t[id], now)
  {
    CountIs(t, user, keep);
    CountIs(Pruned(t, now), user, keep);
    var all, left := Counted(t, user, keep), Counted(Pruned(t, now), user, keep);
    assert left <= all && all == left + (all - left);
    assert |all| == |left| + |all - left|;
    if id :| id in all && Prunable(t[id], now) {
      assert id in all - left;
    } else {
      assert all == left;
    }
  }

  /** It can differ: an opened session that was never used is counted until it is pruned. */
  lemma PruneShowsInCounts() returns (t: Table, now: Time)
    ensures |t| - |WithoutUser(t, 1, None)| != |Pruned(t, now)| - |WithoutUser(Pruned(t, now), 1, None)|
  {
    t, now := map["a" := Opened(1, 0, 0)], IDLE;
    assert Pruned(t, now) == map[] && WithoutUser(t, 1, None) == map[];
    assert WithoutUser(Pruned(t, now), 1, None) == map[];
  }
}
