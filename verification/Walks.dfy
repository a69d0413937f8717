/** Paging back and forth on a fixed table, and walking to its end while it changes. */
module Walks {
  import opened Options
  import opened Keyset
  import opened Paging

  // ----- the links a page offers -----

  /** The cursor the two query parameters stand for; only one of them is used. */
  function PageCursor(before: Option<int>, after: Option<int>): (c: Cursor)
    ensures before.Some? ==> c == Before(before.value)
    ensures c == Latest <==> before.None? && after.None?
  {
    if before.Some? then Before(before.value)
    else if after.Some? then After(after.value)
    else Latest
  }

  /** The link to older rows: the last id shown, if there are any. */
  function NextBefore(p: Page<int>): Option<int> {
    if p.hasOlder && p.items != [] then Some(p.items[|p.items| - 1]) else None
  }

  /** The link to newer rows: the first id shown. */
  function NextAfter(p: Page<int>): Option<int> {
    if p.hasNewer && p.items != [] then Some(p.items[0]) else None
  }

  // ----- a fixed table -----

  /** Where `id` falls in a descending list: the first `j` items are at or above it, the rest below. */
  lemma {:induction false} FallsAt(l: seq<int>, id: int) returns (j: nat)
    requires Descending(l)
    ensures j <= |l|
    ensures forall x :: 0 <= x < j ==> l[x] >= id
    ensures forall x :: j <= x < |l| ==> l[x] < id
  {
    j := 0;
    while j < |l| && l[j] >= id
      invariant 0 <= j <= |l|
      invariant forall x :: 0 <= x < j ==> l[x] >= id
    {
      j := j + 1;
    }
  }

  /** What a `Before` cursor admits is the end of the listing, from where its id falls. */
  lemma AdmittedBelow(m: set<int>, id: int, j: nat)
    requires var l := Listing(m);
             && j <= |l|
             && (forall x :: 0 <= x < j ==> l[x] >= id)
             && (forall x :: j <= x < |l| ==> l[x] < id)
    ensures Listing(Admitted(m, Before(id))) == Listing(m)[j..]
  {
    var l := Listing(m);
    forall x | x in Admitted(m, Before(id)) ensures x in l[j..] {
      var i :| 0 <= i < |l| && l[i] == x;
      assert l[j..][i - j] == x;
    }
    assert Lists(l[j..], Admitted(m, Before(id)));
    ListingUnique(Admitted(m, Before(id)), Listing(Admitted(m, Before(id))), l[j..]);
  }

  /** What an `After` cursor admits is the beginning of the listing. */
  lemma AdmittedAbove(m: set<int>, id: int, j: nat)
    requires var l := Listing(m);
             && j <= |l|
             && (forall x :: 0 <= x < j ==> l[x] > id)
             && (forall x :: j <= x < |l| ==> l[x] <= id)
    ensures Listing(Admitted(m, After(id))) == Listing(m)[..j]
  {
    var l := Listing(m);
    forall x | x in Admitted(m, After(id)) ensures x in l[..j] {
      var i :| 0 <= i < |l| && l[i] == x;
      assert l[..j][i] == x;
    }
    assert Lists(l[..j], Admitted(m, After(id)));
    ListingUnique(Admitted(m, After(id)), Listing(Admitted(m, After(id))), l[..j]);
  }

  /** The pages on either side of a listed id as slices of the listing. */
  lemma OlderSlice(m: set<int>, j: nat, limit: nat)
    requires j < |Listing(m)|
    ensures var l := Listing(m);
            PageOf(m, Before(l[j]), limit)
            == Page(l[j + 1..if |l| > j + 1 + limit then j + 1 + limit else |l|], true, |l| > j + 1 + limit)
  {
    AdmittedBelow(m, Listing(m)[j], j + 1);
  }

  lemma NewerSlice(m: set<int>, j: nat, limit: nat)
    requires j < |Listing(m)|
    ensures var l := Listing(m);
            PageOf(m, After(l[j]), limit) == Page(l[if j > limit then j - limit else 0..j], j > limit, true)
  {
    AdmittedAbove(m, Listing(m)[j], j);
  }

  lemma LatestSlice(m: set<int>, limit: nat)
    ensures var l := Listing(m);
            PageOf(m, Latest, limit) == Page(l[..if |l| > limit then limit else |l|], false, |l| > limit)
  {
    assert Admitted(m, Latest) == m;
  }

  /** The page shows items `i .. k` of the listing and its flags say exactly what lies outside. */
  ghost predicate Shows(p: Page<int>, l: seq<int>, i: nat, k: nat) {
    i <= k <= |l| && p.items == l[i..k] && p.hasNewer == (i > 0) && p.hasOlder == (k < |l|)
  }

  /** The cursors a client can take from a page: none, or the id of a displayed matching row. */
  ghost predicate FromDisplayed(m: set<int>, c: Cursor) {
    match c
    case Latest => true
    case Before(id) => id in m
    case After(id) => id in m
  }

  /**
   For a cursor taken from a displayed row both flags are exact, although the one towards the
   cursor is never queried; a page with older rows is as long as the limit or the top allows, and
   one with newer rows as long as the limit or the bottom allows.
   */
  lemma FlagsExact(m: set<int>, c: Cursor, limit: nat) returns (i: nat, k: nat)
    requires FromDisplayed(m, c)
    ensures Shows(PageOf(m, c, limit), Listing(m), i, k)
    ensures k < |Listing(m)| && i < k ==> i == if k > limit then k - limit else 0
    ensures i > 0 && i < k ==> k == if i + limit < |Listing(m)| then i + limit else |Listing(m)|
  {
    var l := Listing(m);
    match c
    case Latest =>
      LatestSlice(m, limit);
      i, k := 0, if |l| > limit then limit else |l|;
    case Before(id) =>
      var j :| 0 <= j < |l| && l[j] == id;
      OlderSlice(m, j, limit);
      i, k := j + 1, if |l| > j + 1 + limit then j + 1 + limit else |l|;
    case After(id) =>
      var j :| 0 <= j < |l| && l[j] == id;
      NewerSlice(m, j, limit);
      i, k := if j > limit then j - limit else 0, j;
  }

  /** The page is some slice of the listing with exact flags. */
  ghost predicate Faithful(p: Page<int>, l: seq<int>) {
    exists i: nat, k: nat :: Shows(p, l, i, k)
  }

  /** A matching row lies at the cursor or on its far side. */
  ghost predicate Anchored(m: set<int>, c: Cursor) {
    match c
    case Latest => true
    case Before(id) => exists x :: x in m && x >= id
    case After(id) => exists x :: x in m && x <= id
  }

  /** A page that starts at the top of a listing, yet claims newer rows, is no slice with exact flags. */
  lemma FalseNewer(p: Page<int>, l: seq<int>, n: nat)
    requires Descending(l) && n <= |l| && (n == 0 ==> l == []) && p.items == l[..n] && p.hasNewer
    ensures !Faithful(p, l)
  {
    forall i: nat, k: nat ensures !Shows(p, l, i, k) {
      assert i > 0 && i < k <= |l| ==> l[i..k][0] == l[i] < l[0];
    }
  }

  /** Nor is one that ends at the bottom and claims older rows. */
  lemma FalseOlder(p: Page<int>, l: seq<int>, n: nat)
    requires Descending(l) && n <= |l| && (n == |l| ==> l == []) && p.items == l[n..] && p.hasOlder
    ensures !Faithful(p, l)
  {
    forall i: nat, k: nat ensures !Shows(p, l, i, k) {
      assert i < k < |l| ==> l[i..k][k - i - 1] == l[k - 1] > l[|l| - 1];
      assert n < |l| ==> l[n..][|l| - n - 1] == l[|l| - 1];
    }
  }

  lemma BeforeFaithfulIff(m: set<int>, id: int, limit: nat)
    requires limit >= 1
    ensures Faithful(PageOf(m, Before(id), limit), Listing(m)) <==> Anchored(m, Before(id))
  {
    var l, p := Listing(m), PageOf(m, Before(id), limit);
    var j := FallsAt(l, id);
    AdmittedBelow(m, id, j);
    var k := if |l| > j + limit then j + limit else |l|;
    if j > 0 {
      assert l[j - 1] in m;
      assert Shows(p, l, j, k);
    } else {
      FalseNewer(p, l, k);
    }
  }

  lemma AfterFaithfulIff(m: set<int>, id: int, limit: nat)
    requires limit >= 1
    ensures Faithful(PageOf(m, After(id), limit), Listing(m)) <==> Anchored(m, After(id))
  {
    var l, p := Listing(m), PageOf(m, After(id), limit);
    var j := FallsAt(l, id + 1);
    AdmittedAbove(m, id, j);
    var i := if j > limit then j - limit else 0;
    if j < |l| {
      assert l[j] in m;
      assert Shows(p, l, i, j);
    } else {
      FalseOlder(p, l, i);
    }
  }

  /**
   Which cursors give a faithful page, displayed or not: none at all, and those with a matching row
   at the cursor or on its far side. The flag towards the cursor is set without looking.
   */
  lemma FaithfulIff(m: set<int>, c: Cursor, limit: nat)
    requires limit >= 1
    ensures Faithful(PageOf(m, c, limit), Listing(m)) <==> Anchored(m, c)
  {
    match c
    case Latest =>
      var i, k := FlagsExact(m, Latest, limit);
    case Before(id) => BeforeFaithfulIff(m, id, limit);
    case After(id) => AfterFaithfulIff(m, id, limit);
  }

  /** The row a link was taken from, and all newer ones, are deleted before it is followed. */
  lemma StaleCursorMisleads() returns (m: set<int>, left: set<int>, c: Cursor)
    ensures left < m && FromDisplayed(m, c) && c.Before?
    ensures !Faithful(PageOf(left, c, 1), Listing(left))
  {
    m, left, c := {3, 5}, {3}, Before(5);
    FaithfulIff(left, c, 1);
  }

  /** Following a page's older link and then the newer link gives back the identical page, flags included. */
  lemma OlderThenNewer(m: set<int>, c: Cursor, limit: nat)
    requires limit >= 1 && FromDisplayed(m, c)
    requires NextBefore(PageOf(m, c, limit)).Some?
    ensures var p := PageOf(m, c, limit);
            var older := PageOf(m, PageCursor(NextBefore(p), None), limit);
            NextAfter(older).Some? && PageOf(m, PageCursor(None, NextAfter(older)), limit) == p
  {
    var i, k := ShownWithOlder(m, c, limit);
    AroundEnd(m, k, limit);
  }

  lemma ShownWithOlder(m: set<int>, c: Cursor, limit: nat) returns (i: nat, k: nat)
    requires FromDisplayed(m, c) && NextBefore(PageOf(m, c, limit)).Some?
    ensures var l := Listing(m);
            && 0 < k < |l| && i == (if k > limit then k - limit else 0)
            && NextBefore(PageOf(m, c, limit)) == Some(l[k - 1])
            && PageOf(m, c, limit) == Page(l[i..k], i > 0, true)
  {
    i, k := FlagsExact(m, c, limit);
  }

  /** The page older than item `k - 1`, and the page newer than that one. */
  lemma AroundEnd(m: set<int>, k: nat, limit: nat)
    requires limit >= 1 && 0 < k < |Listing(m)|
    ensures var l := Listing(m);
            var i := if k > limit then k - limit else 0;
            && NextAfter(PageOf(m, Before(l[k - 1]), limit)) == Some(l[k])
            && PageOf(m, After(l[k]), limit) == Page(l[i..k], i > 0, true)
  {
    OlderSlice(m, k - 1, limit);
    NewerSlice(m, k, limit);
  }

  /** The page newer than item `i`, and the page older than that one. */
  lemma AroundItem(m: set<int>, i: nat, limit: nat)
    requires limit >= 1 && 0 < i < |Listing(m)|
    ensures var l := Listing(m);
            && NextBefore(PageOf(m, After(l[i]), limit)) == Some(l[i - 1])
            && PageOf(m, Before(l[i - 1]), limit)
               == Page(l[i..if |l| > i + limit then i + limit else |l|], true, |l| > i + limit)
  {
    NewerSlice(m, i, limit);
    OlderSlice(m, i - 1, limit);
  }

  lemma ShownWithNewer(m: set<int>, c: Cursor, limit: nat) returns (i: nat)
    requires FromDisplayed(m, c) && NextAfter(PageOf(m, c, limit)).Some?
    ensures var l := Listing(m);
            && 0 < i < |l| && NextAfter(PageOf(m, c, limit)) == Some(l[i])
            && PageOf(m, c, limit) == Page(l[i..if |l| > i + limit then i + limit else |l|], true, |l| > i + limit)
  {
    var k;
    i, k := FlagsExact(m, c, limit);
  }

  /** Following the newer link and then the older one does so too. */
  lemma NewerThenOlder(m: set<int>, c: Cursor, limit: nat)
    requires limit >= 1 && FromDisplayed(m, c)
    requires NextAfter(PageOf(m, c, limit)).Some?
    ensures var p := PageOf(m, c, limit);
            var newer := PageOf(m, PageCursor(None, NextAfter(p)), limit);
            NextBefore(newer).Some? && PageOf(m, PageCursor(NextBefore(newer), None), limit) == p
  {
    var i := ShownWithNewer(m, c, limit);
    AroundItem(m, i, limit);
  }

  // ----- a changing table -----

  /**
   The table as it stands at each fetch, and the largest id given out so far. Between fetches rows
   may be deleted, and new ones get ids never given out before; stored rows do not change.
   */
  datatype History = History(tables: nat -> Table, high: nat -> int) {
    ghost predicate Follows(i: nat) {
      && (forall id :: id in tables(i) ==> id <= high(i))
      && high(i) <= high(i + 1)
      && (forall id :: id in tables(i + 1) ==>
            (id in tables(i) && tables(i)[id] == tables(i + 1)[id]) || id > high(i))
    }

    ghost predicate Valid() {
      forall i: nat :: Follows(i)
    }
  }

  /** The cursor lies within what has been given out. */
  ghost predicate Reachable(h: History, i: nat, c: Cursor) {
    match c
    case Latest => true
    case Before(id) => id <= h.high(i)
    case After(_) => false
  }

  /** Fetch page `i` at `c`, then follow its older link until there is none: all ids shown. */
  ghost function Walk(h: History, q: Query, i: nat, c: Cursor): seq<int>
    requires h.Valid() && Reachable(h, i, c)
    decreases |Admitted(h.tables(i).Keys, c)|
  {
    var p := PageOf(Matching(h.tables(i), q), c, q.limit);
    if NextBefore(p).None? then p.items
    else
      WalkShrinks(h, q, i, c);
      p.items + Walk(h, q, i + 1, Before(NextBefore(p).value))
  }

  /** The next fetch has strictly fewer rows to consider, so the walk ends. */
  lemma WalkShrinks(h: History, q: Query, i: nat, c: Cursor)
    requires h.Valid() && Reachable(h, i, c)
    requires NextBefore(PageOf(Matching(h.tables(i), q), c, q.limit)).Some?
    ensures var next := Before(NextBefore(PageOf(Matching(h.tables(i), q), c, q.limit)).value);
            && Reachable(h, i + 1, next)
            && |Admitted(h.tables(i + 1).Keys, next)| < |Admitted(h.tables(i).Keys, c)|
  {
    var p := PageOf(Matching(h.tables(i), q), c, q.limit);
    var last := p.items[|p.items| - 1];
    var big, small := Admitted(h.tables(i).Keys, c), Admitted(h.tables(i + 1).Keys, Before(last));
    PageMembers(Matching(h.tables(i), q), c, q.limit);
    assert last in big && last !in small;
    assert h.Follows(i) && last in h.tables(i);
    forall id | id in small ensures id in big {
      assert id < last <= h.high(i);
    }
    SmallerSet(small, big, last);
  }

  lemma SmallerSet(a: set<int>, b: set<int>, x: int)
    requires a <= b && x in b && x !in a
    ensures |a| < |b|
  {
    assert b == a + (b - a) && x in b - a;
    assert |b| == |a| + |b - a|;
  }

  /** A first page holds admitted matching ids, newest first, and everything it leaves out is older. */
  lemma PageMembers(m: set<int>, c: Cursor, limit: nat)
    requires !c.After?
    ensures var p := PageOf(m, c, limit);
            && Descending(p.items)
            && (forall x :: x in p.items ==> x in m && Admits(c, x))
            && (forall x :: x in m && Admits(c, x) && x !in p.items ==>
                  p.hasOlder && |p.items| == limit && forall y :: y in p.items ==> x < y)
  {
    var l := Listing(Admitted(m, c));
    var p := PageOf(m, c, limit);
    assert p.items == l[..|p.items|];
    assert forall i :: 0 <= i < |p.items| ==> p.items[i] == l[i];
    forall x | x in p.items ensures x in m && Admits(c, x) {
      var i :| 0 <= i < |p.items| && p.items[i] == x;
      assert l[i] == x;
    }
    forall x | x in m && Admits(c, x) && x !in p.items
      ensures p.hasOlder && |p.items| == limit && forall y :: y in p.items ==> x < y
    {
      assert x in Admitted(m, c);
      var i :| 0 <= i < |l| && l[i] == x;
      assert i >= |p.items|;
    }
  }

  /** The walk never goes back: its ids strictly descend from the cursor, so none is shown twice. */
  lemma {:induction false} WalkDescends(h: History, q: Query, i: nat, c: Cursor)
    requires h.Valid() && Reachable(h, i, c)
    ensures Descending(Walk(h, q, i, c))
    ensures forall x :: x in Walk(h, q, i, c) ==> Admits(c, x)
    decreases |Admitted(h.tables(i).Keys, c)|
  {
    var p := PageOf(Matching(h.tables(i), q), c, q.limit);
    PageMembers(Matching(h.tables(i), q), c, q.limit);
    if NextBefore(p).Some? {
      var last := NextBefore(p).value;
      WalkShrinks(h, q, i, c);
      WalkDescends(h, q, i + 1, Before(last));
      var rest := Walk(h, q, i + 1, Before(last));
      assert last in p.items;
      JoinDescending(p.items, rest);
    }
  }

  lemma JoinDescending(a: seq<int>, b: seq<int>)
    requires Descending(a) && Descending(b) && a != []
    requires forall x :: x in b ==> x < a[|a| - 1]
    ensures Descending(a + b)
  {
    forall i, j | 0 <= i < j < |a + b| ensures (a + b)[i] > (a + b)[j] {
      if i < |a| <= j {
        assert a[i] >= a[|a| - 1] && b[j - |a|] in b;
      }
    }
  }

  /** How many pages the walk fetches. */
  ghost function Fetches(h: History, q: Query, i: nat, c: Cursor): (n: nat)
    requires h.Valid() && Reachable(h, i, c)
    ensures n >= 1
    decreases |Admitted(h.tables(i).Keys, c)|
  {
    var p := PageOf(Matching(h.tables(i), q), c, q.limit);
    if NextBefore(p).None? then 1
    else
      WalkShrinks(h, q, i, c);
      1 + Fetches(h, q, i + 1, Before(NextBefore(p).value))
  }

  /** What the walk shows was matching when its page was fetched. */
  lemma {:induction false} WalkSound(h: History, q: Query, i: nat, c: Cursor, x: int)
    requires h.Valid() && Reachable(h, i, c) && x in Walk(h, q, i, c)
    ensures exists k :: i <= k < i + Fetches(h, q, i, c) && x in Matching(h.tables(k), q)
    decreases |Admitted(h.tables(i).Keys, c)|
  {
    var p := PageOf(Matching(h.tables(i), q), c, q.limit);
    PageMembers(Matching(h.tables(i), q), c, q.limit);
    if x !in p.items {
      WalkShrinks(h, q, i, c);
      WalkSound(h, q, i + 1, Before(NextBefore(p).value), x);
    }
  }

  /**
   A row that matched when the walk reached it and was not deleted before the walk ended is shown,
   whatever was inserted or deleted around it.
   */
  lemma {:induction false} WalkComplete(h: History, q: Query, i: nat, c: Cursor, x: int)
    requires h.Valid() && Reachable(h, i, c) && q.limit >= 1
    requires x in Matching(h.tables(i), q) && Admits(c, x)
    requires forall k :: i <= k < i + Fetches(h, q, i, c) ==> x in h.tables(k)
    ensures x in Walk(h, q, i, c)
    decreases |Admitted(h.tables(i).Keys, c)|
  {
    var p := PageOf(Matching(h.tables(i), q), c, q.limit);
    PageMembers(Matching(h.tables(i), q), c, q.limit);
    if x !in p.items {
      var last := p.items[|p.items| - 1];
      assert last in p.items && NextBefore(p) == Some(last);
      WalkShrinks(h, q, i, c);
      assert h.Follows(i) && x in h.tables(i + 1);
      WalkComplete(h, q, i + 1, Before(last), x);
    }
  }

  /** The whole walk from the newest page. */
  lemma WholeWalk(h: History, q: Query)
    requires h.Valid() && q.limit >= 1
    ensures var shown := Walk(h, q, 0, Latest);
            && Descending(shown)
            && (forall x ::
                  (x in Matching(h.tables(0), q) && forall k :: 0 <= k < Fetches(h, q, 0, Latest) ==> x in h.tables(k))
                  ==> x in shown)
            && (forall x :: x in shown ==> exists k :: 0 <= k < Fetches(h, q, 0, Latest) && x in Matching(h.tables(k), q))
  {
    WalkDescends(h, q, 0, Latest);
    forall x | x in Matching(h.tables(0), q) && forall k :: 0 <= k < Fetches(h, q, 0, Latest) ==> x in h.tables(k)
      ensures x in Walk(h, q, 0, Latest)
    {
      WalkComplete(h, q, 0, Latest, x);
    }
    forall x | x in Walk(h, q, 0, Latest)
      ensures exists k :: 0 <= k < Fetches(h, q, 0, Latest) && x in Matching(h.tables(k), q)
    {
      WalkSound(h, q, 0, Latest, x);
    }
  }
}
