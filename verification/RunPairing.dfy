/** Run durations: pairing each finish with the start before it. */
module RunPairing {
  import opened Clock
  import opened Models
  import opened Options

  datatype Ping = Ping(id: int, kind: PingKind, at: Time)

  predicate IsFinish(k: PingKind) {
    k == Success || k == Fail
  }

  /** Display order: by time, then id. */
  predicate Leq(a: Ping, b: Ping) {
    a.at < b.at || (a.at == b.at && a.id <= b.id)
  }

  // ----- sorting -----

  function Insert(p: Ping, s: seq<Ping>): seq<Ping> {
    if s == [] || Leq(p, s[0]) then [p] + s else [s[0]] + Insert(p, s[1..])
  }

  function Sort(s: seq<Ping>): seq<Ping> {
    if s == [] then [] else Insert(s[0], Sort(s[1..]))
  }

  ghost predicate Sorted(s: seq<Ping>) {
    forall i, j :: 0 <= i < j < |s| ==> Leq(s[i], s[j])
  }

  /** Ids are primary keys. */
  ghost predicate DistinctIds(s: seq<Ping>) {
    forall i, j :: 0 <= i < j < |s| ==> s[i].id != s[j].id
  }

  lemma {:induction false} InsertSorts(p: Ping, s: seq<Ping>)
    requires Sorted(s)
    ensures Sorted(Insert(p, s)) && multiset(Insert(p, s)) == multiset(s) + multiset{p}
  {
    if s != [] && !Leq(p, s[0]) {
      InsertSorts(p, s[1..]);
      var r := Insert(p, s[1..]);
      assert s == [s[0]] + s[1..];
      forall x | x in r ensures Leq(s[0], x) {
        assert x in multiset(r);
        assert x == p || x in s[1..];
      }
    } else {
      assert [p] + s == Insert(p, s);
    }
  }

  lemma {:induction false} SortSorts(s: seq<Ping>)
    ensures Sorted(Sort(s)) && multiset(Sort(s)) == multiset(s)
  {
    if s != [] {
      SortSorts(s[1..]);
      InsertSorts(s[0], Sort(s[1..]));
      assert s == [s[0]] + s[1..];
    }
  }

  lemma {:induction false} InsertDistinct(p: Ping, s: seq<Ping>)
    requires DistinctIds(s) && Sorted(s) && forall x :: x in s ==> x.id != p.id
    ensures DistinctIds(Insert(p, s))
  {
    if s != [] && !Leq(p, s[0]) {
      InsertDistinct(p, s[1..]);
      var r := Insert(p, s[1..]);
      InsertSorts(p, s[1..]);
      forall x | x in r ensures x.id != s[0].id {
        assert x in multiset(r);
        assert x == p || x in s[1..];
      }
    }
  }

  /** Sorting keeps ids distinct. */
  lemma {:induction false} SortDistinct(s: seq<Ping>)
    requires DistinctIds(s)
    ensures DistinctIds(Sort(s))
  {
    if s != [] {
      SortDistinct(s[1..]);
      SortSorts(s[1..]);
      forall x | x in Sort(s[1..]) ensures x.id != s[0].id {
        assert x in multiset(Sort(s[1..]));
        assert x in s[1..];
      }
      InsertDistinct(s[0], Sort(s[1..]));
    }
  }

  lemma FirstsAgree(a: seq<Ping>, b: seq<Ping>)
    requires Sorted(a) && Sorted(b) && multiset(a) == multiset(b) && DistinctIds(a) && a != [] && b != []
    ensures a[0] == b[0]
  {
    assert a[0] in multiset(b) && b[0] in multiset(a);
    var i :| 0 <= i < |a| && a[i] == b[0];
    var j :| 0 <= j < |b| && b[j] == a[0];
    assert Leq(a[0], a[i]) && Leq(b[0], b[j]);
  }

  lemma TailMultiset(a: seq<Ping>)
    requires a != []
    ensures multiset(a[1..]) == multiset(a) - multiset{a[0]}
  {
    assert a == [a[0]] + a[1..];
  }

  /** The same pings have one sorted order. */
  lemma {:induction false} SortedUnique(a: seq<Ping>, b: seq<Ping>)
    requires Sorted(a) && Sorted(b) && multiset(a) == multiset(b) && DistinctIds(a)
    ensures a == b
  {
    assert |a| == |multiset(a)| && |b| == |multiset(b)|;
    if a != [] {
      FirstsAgree(a, b);
      TailMultiset(a);
      TailMultiset(b);
      SortedUnique(a[1..], b[1..]);
      assert a == [a[0]] + a[1..] && b == [b[0]] + b[1..];
    }
  }

  // ----- the scan -----

  /** Whole seconds between two instants, truncated. */
  function WholeSecs(from: Time, to: Time): (secs: int)
    ensures from <= to ==> secs * 1_000_000_000 <= to - from < (secs + 1) * 1_000_000_000
    ensures to < from ==> (secs - 1) * 1_000_000_000 < to - from <= secs * 1_000_000_000
  {
    if to >= from then (to - from) / 1_000_000_000 else 0 - (from - to) / 1_000_000_000
  }

  datatype Pairing = Pairing(durations: map<int, int>, pending: Option<Time>)

  function Next(r: Pairing, p: Ping): Pairing {
    if p.kind == Start then r.(pending := Some(p.at))
    else if !IsFinish(p.kind) || r.pending.None? then r
    else
      var secs := WholeSecs(r.pending.value, p.at);
      Pairing(if secs >= 0 then r.durations[p.id := secs] else r.durations, None)
  }

  function Scan(s: seq<Ping>): Pairing {
    if s == [] then Pairing(map[], None) else Next(Scan(s[..|s| - 1]), s[|s| - 1])
  }

  /**
   Finish id to seconds since its start, in any input order: one entry for each pair, holding the
   time between the two, and no other entry.
   */
  method RunDurations(pings: seq<Ping>) returns (out: map<int, int>)
    ensures out == Durations(pings)
    ensures DistinctIds(pings) ==> forall x, y :: Pairs(pings, x, y) ==> y.id in out && out[y.id] == WholeSecs(x.at, y.at) >= 0
    ensures DistinctIds(pings) ==> forall id :: id in out ==> exists x, y :: Pairs(pings, x, y) && y.id == id
  {
    var ordered := Sort(pings);
    out := map[];
    var pendingStart: Option<Time> := None;
    for i := 0 to |ordered|
      invariant Pairing(out, pendingStart) == Scan(ordered[..i])
    {
      assert ordered[..i + 1][..i] == ordered[..i];
      var p := ordered[i];
      if p.kind == Start {
        pendingStart := Some(p.at);
        continue;
      }
      if !IsFinish(p.kind) {
        continue;
      }
      if pendingStart.None? {
        continue;
      }
      var secs := WholeSecs(pendingStart.value, p.at);
      pendingStart := None;
      if secs >= 0 {
        out := out[p.id := secs];
      }
    }
    assert ordered[..|ordered|] == ordered;
    if DistinctIds(pings) {
      DurationsExact(pings);
    }
  }

  function Durations(pings: seq<Ping>): map<int, int> {
    Scan(Sort(pings)).durations
  }

  // ----- which pairs -----

  /** Display order, strictly. */
  predicate Earlier(a: Ping, b: Ping) {
    a.at < b.at || (a.at == b.at && a.id < b.id)
  }

  predicate IsEdge(p: Ping) {
    p.kind in {Start, Success, Fail}
  }

  /**
   Start `x` and finish `y` belong together: `x` is earlier, and nothing starts or finishes between
   them. Said of the pings as a collection, in whatever order they are listed.
   */
  ghost predicate Pairs(pings: seq<Ping>, x: Ping, y: Ping) {
    && x in pings && y in pings && x.kind == Start && y.kind in {Success, Fail} && Earlier(x, y)
    && forall z :: z in pings && IsEdge(z) ==> !(Earlier(x, z) && Earlier(z, y))
  }

  // ----- the scan finds them -----

  /** Start `i` runs until finish `j`: nothing starts or finishes between them. */
  ghost predicate Paired(s: seq<Ping>, i: nat, j: nat) {
    && i < j < |s| && s[i].kind == Start && IsFinish(s[j].kind)
    && Quiet(s, i + 1, j)
  }

  ghost predicate Quiet(s: seq<Ping>, i: nat, j: nat)
    requires j <= |s|
  {
    forall k :: i <= k < j ==> s[k].kind != Start && !IsFinish(s[k].kind)
  }

  /** Start `i` is still open at the end. */
  ghost predicate Open(s: seq<Ping>, i: nat) {
    i < |s| && s[i].kind == Start && Quiet(s, i + 1, |s|)
  }

  lemma {:induction false} PendingMeans(s: seq<Ping>)
    ensures var p := Scan(s).pending;
            && (forall i: nat :: Open(s, i) ==> p == Some(s[i].at))
            && (p.Some? ==> exists i: nat :: Open(s, i) && s[i].at == p.value)
  {
    if s != [] {
      var n := |s| - 1;
      var t := s[..n];
      PendingMeans(t);
      forall i: nat | Open(s, i) && i < n ensures Open(t, i) {
      }
      if s[n].kind == Start {
        assert Open(s, n);
      } else if !IsFinish(s[n].kind) {
        if i: nat :| Open(t, i) && Scan(t).pending == Some(t[i].at) {
          assert Open(s, i);
        }
      }
    }
  }

  lemma PairedBefore(s: seq<Ping>, n: nat, j: nat)
    requires j < n <= |s|
    ensures forall i: nat :: Paired(s, i, j) <==> Paired(s[..n], i, j)
  {
  }

  lemma PairedLast(s: seq<Ping>, n: nat)
    requires |s| == n + 1 && IsFinish(s[n].kind)
    ensures forall i: nat :: Paired(s, i, n) <==> Open(s[..n], i)
  {
  }

  lemma LastDuration(s: seq<Ping>)
    requires Sorted(s) && DistinctIds(s) && s != [] && IsFinish(s[|s| - 1].kind)
    ensures var n := |s| - 1;
            && (s[n].id in Scan(s).durations <==> exists i: nat :: Paired(s, i, n))
            && forall i: nat :: Paired(s, i, n) ==>
                 s[n].id in Scan(s).durations && Scan(s).durations[s[n].id] == WholeSecs(s[i].at, s[n].at)
  {
    var n := |s| - 1;
    PendingMeans(s[..n]);
    OnlyFinishes(s[..n], s[n].id);
    PairedLast(s, n);
  }

  /** A finish has a duration exactly when it has a start of its own, and then it is the time between. */
  lemma {:induction false} DurationsMean(s: seq<Ping>, j: nat)
    requires Sorted(s) && DistinctIds(s) && j < |s| && IsFinish(s[j].kind)
    ensures s[j].id in Scan(s).durations <==> exists i: nat :: Paired(s, i, j)
    ensures forall i: nat :: Paired(s, i, j) ==>
              s[j].id in Scan(s).durations && Scan(s).durations[s[j].id] == WholeSecs(s[i].at, s[j].at)
    decreases |s|
  {
    var n := |s| - 1;
    var t := s[..n];
    if j < n {
      DurationsMean(t, j);
      PairedBefore(s, n, j);
      assert s[n].id != s[j].id;
    } else {
      LastDuration(s);
    }
  }

  /** Only finishes that occur get a duration. */
  lemma {:induction false} OnlyFinishes(s: seq<Ping>, id: int)
    ensures id in Scan(s).durations ==> exists j :: 0 <= j < |s| && s[j].id == id && IsFinish(s[j].kind)
  {
    if s != [] {
      OnlyFinishes(s[..|s| - 1], id);
    }
  }

  // ----- from positions in the sorted list to the collection -----

  lemma SortedOnce(pings: seq<Ping>)
    requires DistinctIds(pings)
    ensures var s := Sort(pings);
            && Sorted(s) && DistinctIds(s)
            && (forall p :: p in s <==> p in pings)
            && (forall i, j :: 0 <= i < |s| && 0 <= j < |s| ==> (Earlier(s[i], s[j]) <==> i < j))
  {
    SortSorts(pings);
    SortDistinct(pings);
    var s := Sort(pings);
    forall p ensures p in s <==> p in pings {
      assert p in multiset(s) <==> p in multiset(pings);
    }
    forall i, j | 0 <= i < |s| && 0 <= j < |s| ensures Earlier(s[i], s[j]) <==> i < j {
      if i < j {
        assert Leq(s[i], s[j]) && s[i].id != s[j].id;
      } else if j < i {
        assert Leq(s[j], s[i]) && s[i].id != s[j].id;
      }
    }
  }

  lemma PairedGivesPairs(pings: seq<Ping>, i: nat, j: nat)
    requires DistinctIds(pings) && Paired(Sort(pings), i, j)
    ensures Pairs(pings, Sort(pings)[i], Sort(pings)[j])
  {
    var s := Sort(pings);
    SortedOnce(pings);
    forall z | z in pings && IsEdge(z) ensures !(Earlier(s[i], z) && Earlier(z, s[j])) {
      var k :| 0 <= k < |s| && s[k] == z;
      assert Earlier(s[i], s[k]) <==> i < k;
      assert Earlier(s[k], s[j]) <==> k < j;
    }
  }

  lemma PairsGivePaired(pings: seq<Ping>, i: nat, j: nat)
    requires DistinctIds(pings) && i < |Sort(pings)| && j < |Sort(pings)|
    requires Pairs(pings, Sort(pings)[i], Sort(pings)[j])
    ensures Paired(Sort(pings), i, j)
  {
    var s := Sort(pings);
    SortedOnce(pings);
    forall k | i < k < j ensures !IsEdge(s[k]) {
      assert s[k] in pings && Earlier(s[i], s[k]) && Earlier(s[k], s[j]);
    }
  }

  /** Neighbouring edges of the sorted list are the pairs of the collection. */
  lemma PairedIsPairs(pings: seq<Ping>, i: nat, j: nat)
    requires DistinctIds(pings) && i < |Sort(pings)| && j < |Sort(pings)|
    ensures Paired(Sort(pings), i, j) <==> Pairs(pings, Sort(pings)[i], Sort(pings)[j])
  {
    if Paired(Sort(pings), i, j) {
      PairedGivesPairs(pings, i, j);
    }
    if Pairs(pings, Sort(pings)[i], Sort(pings)[j]) {
      PairsGivePaired(pings, i, j);
    }
  }

  lemma PairPosition(pings: seq<Ping>, x: Ping, y: Ping) returns (i: nat, j: nat)
    requires DistinctIds(pings) && Pairs(pings, x, y)
    ensures var s := Sort(pings); i < |s| && j < |s| && s[i] == x && s[j] == y && Paired(s, i, j)
  {
    var s := Sort(pings);
    SortedOnce(pings);
    i :| 0 <= i < |s| && s[i] == x;
    j :| 0 <= j < |s| && s[j] == y;
    PairedIsPairs(pings, i, j);
  }

  lemma EntryHasPair(pings: seq<Ping>, id: int) returns (x: Ping, y: Ping)
    requires DistinctIds(pings) && id in Durations(pings)
    ensures Pairs(pings, x, y) && y.id == id
  {
    var s := Sort(pings);
    SortedOnce(pings);
    OnlyFinishes(s, id);
    var j :| 0 <= j < |s| && s[j].id == id && IsFinish(s[j].kind);
    DurationsMean(s, j);
    var i: nat :| Paired(s, i, j);
    PairedIsPairs(pings, i, j);
    x, y := s[i], s[j];
  }

  lemma PairHasEntry(pings: seq<Ping>, x: Ping, y: Ping)
    requires DistinctIds(pings) && Pairs(pings, x, y)
    ensures y.id in Durations(pings) && Durations(pings)[y.id] == WholeSecs(x.at, y.at) >= 0
  {
    SortedOnce(pings);
    var i, j := PairPosition(pings, x, y);
    DurationsMean(Sort(pings), j);
  }

  // ----- the promises -----

  /** The result has exactly one entry for each pair, the non-negative time between its two pings. */
  lemma DurationsExact(pings: seq<Ping>)
    requires DistinctIds(pings)
    ensures forall x, y :: Pairs(pings, x, y) ==>
              y.id in Durations(pings) && Durations(pings)[y.id] == WholeSecs(x.at, y.at) >= 0
    ensures forall id :: id in Durations(pings) ==> exists x, y :: Pairs(pings, x, y) && y.id == id
  {
    forall x, y | Pairs(pings, x, y)
      ensures y.id in Durations(pings) && Durations(pings)[y.id] == WholeSecs(x.at, y.at) >= 0
    {
      PairHasEntry(pings, x, y);
    }
    forall id | id in Durations(pings) ensures exists x, y :: Pairs(pings, x, y) && y.id == id {
      var x, y := EntryHasPair(pings, id);
    }
  }

  /** No start is used twice and no finish either. */
  lemma PairsDisjoint(pings: seq<Ping>, x: Ping, y: Ping, x': Ping, y': Ping)
    requires DistinctIds(pings) && Pairs(pings, x, y) && Pairs(pings, x', y')
    ensures x == x' <==> y == y'
  {
    SameOrApart(pings, x, x');
    SameOrApart(pings, y, y');
  }

  lemma SameOrApart(pings: seq<Ping>, a: Ping, b: Ping)
    requires DistinctIds(pings) && a in pings && b in pings
    ensures a == b || Earlier(a, b) || Earlier(b, a)
  {
  }

  /**
   A finish has a start of its own exactly when some earlier start is followed by no other finish
   before it, and its own is then the latest of the earlier starts.
   */
  lemma PairedIsLatest(pings: seq<Ping>, y: Ping)
    requires DistinctIds(pings) && y in pings && y.kind in {Success, Fail}
    ensures (exists x :: Pairs(pings, x, y)) <==>
              exists x :: x in pings && x.kind == Start && Earlier(x, y)
                          && forall z :: z in pings && z.kind in {Success, Fail} ==> !(Earlier(x, z) && Earlier(z, y))
    ensures forall x, z :: Pairs(pings, x, y) && z in pings && z.kind == Start && Earlier(z, y) ==> z == x || Earlier(z, x)
  {
    if x :| x in pings && x.kind == Start && Earlier(x, y)
            && forall z :: z in pings && z.kind in {Success, Fail} ==> !(Earlier(x, z) && Earlier(z, y)) {
      var l := LatestStart(pings, x, y);
      assert Pairs(pings, l, y);
    }
    forall x, z | Pairs(pings, x, y) && z in pings && z.kind == Start && Earlier(z, y) ensures z == x || Earlier(z, x) {
      SameOrApart(pings, x, z);
    }
  }

  /** Of the starts from `x` on and before `y`, the last. */
  lemma LatestStart(pings: seq<Ping>, x: Ping, y: Ping) returns (l: Ping)
    requires DistinctIds(pings) && x in pings && x.kind == Start && Earlier(x, y)
    ensures l in pings && l.kind == Start && Earlier(l, y) && (l == x || Earlier(x, l))
    ensures forall z :: z in pings && z.kind == Start ==> !(Earlier(l, z) && Earlier(z, y))
  {
    l := x;
    for k := 0 to |pings|
      invariant l in pings && l.kind == Start && Earlier(l, y) && (l == x || Earlier(x, l))
      invariant forall i :: 0 <= i < k && pings[i].kind == Start ==> !(Earlier(l, pings[i]) && Earlier(pings[i], y))
    {
      var p := pings[k];
      if p.kind == Start && Earlier(l, p) && Earlier(p, y) {
        l := p;
      }
    }
  }

  /** The result does not depend on the order the pings come in. */
  lemma OrderIndependent(a: seq<Ping>, b: seq<Ping>)
    requires multiset(a) == multiset(b) && DistinctIds(a)
    ensures Durations(a) == Durations(b)
  {
    SortDistinct(a);
    SortSorts(a);
    SortSorts(b);
    SortedUnique(Sort(a), Sort(b));
  }

  // ----- the heartbeat's window -----

  ghost predicate Part(w: seq<Ping>, all: seq<Ping>) {
    DistinctIds(w) && DistinctIds(all) && forall p :: p in w ==> p in all
  }

  /** The `n` rows of largest id, listed in any order. */
  ghost predicate Window(w: seq<Ping>, all: seq<Ping>, n: nat) {
    && Part(w, all) && |w| == (if n < |all| then n else |all|)
    && forall p, z :: p in w && z in all && z !in w ==> z.id < p.id
  }

  /** What is left out was displayed before everything that is kept. */
  ghost predicate Behind(w: seq<Ping>, all: seq<Ping>) {
    forall p, z :: p in w && z in all && z !in w ==> Earlier(z, p)
  }

  /** Ids are given out in the order of time. */
  ghost predicate IdsFollowTime(all: seq<Ping>) {
    forall a, b :: a in all && b in all && a.id < b.id ==> a.at <= b.at
  }

  /**
   A pair of some of the pings is a pair of them all exactly when none of the others starts or
   finishes between its two.
   */
  lemma PairSurvivesIff(w: seq<Ping>, all: seq<Ping>, x: Ping, y: Ping)
    requires Part(w, all) && Pairs(w, x, y)
    ensures Pairs(all, x, y) <==> forall z :: z in all && z !in w && IsEdge(z) ==> !(Earlier(x, z) && Earlier(z, y))
  {
  }

  /** Then a window gives no duration that the full history does not give. */
  lemma WindowIsContained(w: seq<Ping>, all: seq<Ping>, id: int)
    requires Part(w, all) && Behind(w, all) && id in Durations(w)
    ensures id in Durations(all) && Durations(all)[id] == Durations(w)[id]
  {
    var x, y := EntryHasPair(w, id);
    PairHasEntry(w, x, y);
    PairSurvivesIff(w, all, x, y);
    PairHasEntry(all, x, y);
  }

  /** And it loses exactly the finishes whose own start it does not reach. */
  lemma WindowLoses(w: seq<Ping>, all: seq<Ping>, x: Ping, y: Ping)
    requires Part(w, all) && Behind(w, all) && Pairs(all, x, y) && y in w
    ensures y.id in Durations(w) <==> x in w
  {
    if x in w {
      PairHasEntry(w, x, y);
    } else if y.id in Durations(w) {
      var x', y' := EntryHasPair(w, y.id);
      SameId(w, y, y');
      PairSurvivesIff(w, all, x', y);
      PairsDisjoint(all, x, y, x', y);
    }
  }

  lemma SameId(pings: seq<Ping>, a: Ping, b: Ping)
    requires DistinctIds(pings) && a in pings && b in pings && a.id == b.id
    ensures a == b
  {
  }

  lemma SortLength(all: seq<Ping>)
    ensures |Sort(all)| == |all|
  {
    SortSorts(all);
    assert |Sort(all)| == |multiset(Sort(all))| == |multiset(all)| == |all|;
  }

  lemma InTail(s: seq<Ping>, cut: nat, p: Ping) returns (i: nat)
    requires cut <= |s| && p in s[cut..]
    ensures cut <= i < |s| && s[i] == p
  {
    var k :| 0 <= k < |s| - cut && s[cut..][k] == p;
    i := cut + k;
  }

  lemma BeforeTail(s: seq<Ping>, cut: nat, z: Ping) returns (j: nat)
    requires cut <= |s| && z in s && z !in s[cut..]
    ensures j < cut && s[j] == z
  {
    j :| 0 <= j < |s| && s[j] == z;
    assert forall k :: cut <= k < |s| ==> s[cut..][k - cut] == s[k];
  }

  /** A suffix of the display order is such a window. */
  lemma SuffixIsBehind(all: seq<Ping>, cut: nat)
    requires DistinctIds(all) && cut <= |all|
    ensures |Sort(all)| == |all|
    ensures Part(Sort(all)[cut..], all) && Behind(Sort(all)[cut..], all)
  {
    var s := Sort(all);
    SortedOnce(all);
    SortLength(all);
    forall p, z | p in s[cut..] && z in all && z !in s[cut..] ensures Earlier(z, p) {
      var i := InTail(s, cut, p);
      var j := BeforeTail(s, cut, z);
    }
  }

  /** The pings with ids from `lo` on. */
  function IdsFrom(pings: seq<Ping>, lo: int): (r: seq<Ping>)
    ensures |r| <= |pings| && forall p :: p in r <==> p in pings && p.id >= lo
  {
    if pings == [] then []
    else (if pings[0].id >= lo then [pings[0]] else []) + IdsFrom(pings[1..], lo)
  }

  lemma {:induction false} IdsFromDistinct(pings: seq<Ping>, lo: int)
    requires DistinctIds(pings)
    ensures DistinctIds(IdsFrom(pings, lo))
  {
    if pings != [] {
      IdsFromDistinct(pings[1..], lo);
      forall p | p in IdsFrom(pings[1..], lo) ensures p.id != pings[0].id {
        assert p in pings[1..];
      }
    }
  }

  lemma IdsFromIsWindow(all: seq<Ping>, lo: int)
    requires DistinctIds(all)
    ensures Window(IdsFrom(all, lo), all, |IdsFrom(all, lo)|)
  {
    IdsFromDistinct(all, lo);
  }

  /**
   The rows of largest id are the last ones displayed, for every size of window, if and only if ids
   follow time.
   */
  lemma WindowsBehindIff(all: seq<Ping>)
    requires DistinctIds(all)
    ensures (forall w, n :: Window(w, all, n) ==> Behind(w, all)) <==> IdsFollowTime(all)
  {
    if forall w, n :: Window(w, all, n) ==> Behind(w, all) {
      forall a, b | a in all && b in all && a.id < b.id ensures a.at <= b.at {
        IdsFromIsWindow(all, b.id);
        var w := IdsFrom(all, b.id);
        assert Behind(w, all) && b in w && a !in w;
      }
    }
  }

  /** So when ids follow time, a window by id gives only durations of the full history. */
  lemma IdWindowIsContained(w: seq<Ping>, all: seq<Ping>, n: nat, id: int)
    requires Window(w, all, n) && IdsFollowTime(all) && id in Durations(w)
    ensures id in Durations(all) && Durations(all)[id] == Durations(w)[id]
  {
    WindowsBehindIff(all);
    WindowIsContained(w, all, id);
  }

  lemma IdWindowLoses(w: seq<Ping>, all: seq<Ping>, n: nat, x: Ping, y: Ping)
    requires Window(w, all, n) && IdsFollowTime(all) && Pairs(all, x, y) && y in w
    ensures y.id in Durations(w) <==> x in w
  {
    WindowsBehindIff(all);
    WindowLoses(w, all, x, y);
  }

  /** When they do not, a window can show a duration that the full history contradicts. */
  lemma WindowCanMislead() returns (w: seq<Ping>, all: seq<Ping>, id: int)
    ensures Window(w, all, 2) && id in Durations(w) && id in Durations(all)
    ensures Durations(w)[id] != Durations(all)[id]
  {
    var late := Ping(1, Start, 10_000_000_000);
    var early := Ping(2, Start, 5_000_000_000);
    var done := Ping(3, Success, 11_000_000_000);
    w, all, id := [done, early], [done, early, late], 3;
    assert Pairs(w, early, done);
    assert Pairs(all, late, done);
    PairHasEntry(w, early, done);
    PairHasEntry(all, late, done);
  }
}
