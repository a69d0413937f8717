/** Keyset pages over a table, and walks through them while the table changes. */
module Paging {
  import opened Options
  import opened Sets
  import opened Keyset

  // ----- listing a set of ids newest first -----

  ghost predicate Descending(s: seq<int>) {
    forall i, j :: 0 <= i < j < |s| ==> s[i] > s[j]
  }

  /** `l` holds the members of `s`, newest first. */
  ghost predicate Lists(l: seq<int>, s: set<int>) {
    && Descending(l)
    && (forall i :: 0 <= i < |l| ==> l[i] in s)
    && (forall x :: x in s ==> x in l)
  }

  lemma {:induction false} MaxExists(s: set<int>)
    requires s != {}
    ensures exists m :: m in s && forall x :: x in s ==> x <= m
  {
    NonEmpty(s);
    var x :| x in s;
    var rest := s - {x};
    var top := x;
    if rest != {} {
      MaxExists(rest);
      var m :| m in rest && forall y :: y in rest ==> y <= m;
      top := if x > m then x else m;
    }
    forall y | y in s ensures y <= top {
      assert y == x || y in rest;
    }
    assert top in s;
  }

  function Max(s: set<int>): (m: int)
    requires s != {}
    ensures m in s && forall x :: x in s ==> x <= m
  {
    MaxExists(s);
    var m :| m in s && forall x :: x in s ==> x <= m;
    m
  }

  lemma EmptyListing(s: set<int>, l: seq<int>)
    requires Lists(l, s)
    ensures l == [] <==> s == {}
  {
    NonEmpty(s);
    if l != [] {
      assert l[0] in s;
    }
  }

  /** A set has only one descending listing. */
  lemma {:induction false} ListingUnique(s: set<int>, l: seq<int>, k: seq<int>)
    requires Lists(l, s) && Lists(k, s)
    ensures l == k
    decreases |l|
  {
    EmptyListing(s, l);
    EmptyListing(s, k);
    if l != [] {
      assert l[0] in k && k[0] in l;
      assert l[0] == k[0];
      var m := l[0];
      forall x | x in s - {m} ensures x in l[1..] && x in k[1..] {
      }
      ListingUnique(s - {m}, l[1..], k[1..]);
    }
  }

  lemma {:induction false} ListingExists(s: set<int>)
    ensures exists l :: Lists(l, s)
  {
    if s == {} {
      assert Lists([], s);
    } else {
      var m := Max(s);
      ListingExists(s - {m});
      var l :| Lists(l, s - {m});
      assert Lists([m] + l, s);
    }
  }

  /** The members of `s`, newest first. */
  ghost function Listing(s: set<int>): (l: seq<int>)
    ensures Lists(l, s)
  {
    ListingExists(s);
    var l :| Lists(l, s);
    l
  }

  /** `ORDER BY id DESC`. */
  function SortDesc(s: set<int>): (l: seq<int>)
    ensures Lists(l, s) && l == Listing(s)
  {
    if s == {} then
      ListingUnique(s, [], Listing(s));
      []
    else
      var l := [Max(s)] + SortDesc(s - {Max(s)});
      assert Lists(l, s);
      ListingUnique(s, l, Listing(s));
      l
  }

  function Reverse<T>(s: seq<T>): (r: seq<T>)
    ensures |r| == |s| && forall i :: 0 <= i < |s| ==> r[i] == s[|s| - 1 - i]
  {
    seq(|s|, i requires 0 <= i < |s| => s[|s| - 1 - i])
  }

  /** At most the first `n`. */
  function Take<T>(s: seq<T>, n: nat): (r: seq<T>)
    ensures |r| <= n && |r| <= |s| && r == s[..|r|]
  {
    if |s| > n then s[..n] else s
  }

  // ----- pages -----

  datatype Page<T> = Page(items: seq<T>, hasNewer: bool, hasOlder: bool)

  /** Ids of the rows in the query's scope that pass its filters, wherever the cursor stands. */
  function Matching(t: Table, q: Query): set<int> {
    set id | id in t && InScope(q.scope, t[id]) && AllPass(q.filters, t[id])
  }

  /** The page cut out of the admitted ids `l`, newest first. */
  function Cut(l: seq<int>, cursor: Cursor, limit: nat): Page<int> {
    match cursor
    case After(_) => Page(if |l| > limit then l[|l| - limit..] else l, |l| > limit, true)
    case _ => Page(Take(l, limit), cursor.Before?, |l| > limit)
  }

  function Admitted(m: set<int>, cursor: Cursor): set<int> {
    set id | id in m && Admits(cursor, id)
  }

  /** The page of ids an observer of the whole set `m` would cut out. */
  ghost function PageOf(m: set<int>, cursor: Cursor, limit: nat): Page<int> {
    Cut(Listing(Admitted(m, cursor)), cursor, limit)
  }

  /** Every row is stored under its own id. */
  ghost predicate Keyed(t: Table) {
    forall id :: id in t ==> t[id].id == id
  }

  ghost predicate AllIn(t: Table, ids: seq<int>) {
    forall i :: 0 <= i < |ids| ==> ids[i] in t
  }

  function RowsOf(t: Table, ids: seq<int>): (rows: seq<Row>)
    requires AllIn(t, ids)
    ensures |rows| == |ids| && forall i :: 0 <= i < |ids| ==> rows[i] == t[ids[i]]
  {
    seq(|ids|, i requires 0 <= i < |ids| => t[ids[i]])
  }

  function Selected(sel: Select, binds: seq<Bind>, t: Table): set<int> {
    set id | id in t && WhereHolds(sel.conds, binds, t[id])
  }

  function Ordered(l: seq<int>, order: Order): (r: seq<int>)
    ensures |r| == |l|
    ensures forall i :: 0 <= i < |l| ==> r[i] == l[if order == Asc then |l| - 1 - i else i]
  {
    if order == Asc then Reverse(l) else l
  }

  /** What a database answers: selected rows, sorted by id, at most as many as the limit bind says. */
  ghost function Answer(sel: Select, binds: seq<Bind>, t: Table): seq<Row>
    requires 1 <= sel.limit <= |binds| && binds[sel.limit - 1].IntB? && binds[sel.limit - 1].n >= 0
  {
    RowsOf(t, Take(Ordered(Listing(Selected(sel, binds, t)), sel.order), binds[sel.limit - 1].n))
  }

  method Execute(sel: Select, binds: seq<Bind>, t: Table) returns (rows: seq<Row>)
    requires 1 <= sel.limit <= |binds| && binds[sel.limit - 1].IntB? && binds[sel.limit - 1].n >= 0
    ensures rows == Answer(sel, binds, t)
  {
    var l := SortDesc(Selected(sel, binds, t));
    rows := RowsOf(t, Take(Ordered(l, sel.order), binds[sel.limit - 1].n));
  }

  /** The page made of the fetched rows, one more of them than a page if there is another. */
  function ToPage(fetched: seq<Row>, cursor: Cursor, limit: nat): Page<Row> {
    match cursor
    case After(_) => Page(Reverse(Take(fetched, limit)), |fetched| > limit, true)
    case _ => Page(Take(fetched, limit), cursor.Before?, |fetched| > limit)
  }

  method RowsToPage(fetched: seq<Row>, cursor: Cursor, limit: nat) returns (page: Page<Row>)
    requires |fetched| <= limit + 1
    ensures page == ToPage(fetched, cursor, limit)
  {
    var rows := fetched;
    var overflowed := |rows| > limit;
    if cursor.After? {
      if overflowed {
        rows := rows[..|rows| - 1];
      }
      var items: seq<Row> := [];
      for i := 0 to |rows|
        invariant |items| == i
        invariant forall j :: 0 <= j < i ==> items[j] == rows[i - 1 - j]
      {
        items := [rows[i]] + items;
      }
      assert items == Reverse(rows);
      return Page(items, overflowed, true);
    }
    return Page(if overflowed then rows[..limit] else rows, cursor.Before?, overflowed);
  }

  /** The end of a listing, fetched backwards and turned round. */
  lemma ReversedTail(t: Table, l: seq<int>, limit: nat)
    requires AllIn(t, l)
    ensures var back := RowsOf(t, Take(Reverse(l), limit + 1));
            var kept := if |l| > limit then l[|l| - limit..] else l;
            AllIn(t, kept) && Reverse(Take(back, limit)) == RowsOf(t, kept)
  {
    var back := RowsOf(t, Take(Reverse(l), limit + 1));
    var kept := if |l| > limit then l[|l| - limit..] else l;
    forall i | 0 <= i < |kept| ensures Reverse(Take(back, limit))[i] == t[kept[i]] {
      assert Take(back, limit)[|kept| - 1 - i] == t[Reverse(l)[|kept| - 1 - i]];
    }
  }

  /** Fetching one extra, cutting it off and restoring the order gives the page of the listing. */
  lemma FetchedPage(t: Table, l: seq<int>, cursor: Cursor, order: Order, limit: nat)
    requires AllIn(t, l) && order == if cursor.After? then Asc else Desc
    ensures var p := Cut(l, cursor, limit);
            && AllIn(t, p.items)
            && ToPage(RowsOf(t, Take(Ordered(l, order), limit + 1)), cursor, limit)
               == Page(RowsOf(t, p.items), p.hasNewer, p.hasOlder)
  {
    if cursor.After? {
      ReversedTail(t, l, limit);
    }
  }

  /** The rows the statement selects are the wanted ones. */
  lemma ChosenIds(t: Table, q: Query, sel: Select, binds: seq<Bind>)
    requires Keyed(t) && forall row :: WhereHolds(sel.conds, binds, row) <==> Wanted(q, row)
    ensures Selected(sel, binds, t) == Admitted(Matching(t, q), q.cursor)
  {
  }

  lemma Executed(t: Table, sel: Select, binds: seq<Bind>, n: nat)
    requires 1 <= sel.limit <= |binds| && binds[sel.limit - 1] == IntB(n)
    ensures var l := Listing(Selected(sel, binds, t));
            && AllIn(t, l)
            && Answer(sel, binds, t) == RowsOf(t, Take(Ordered(l, sel.order), n))
            && |Answer(sel, binds, t)| <= n
  {
  }

  /** What the statement fetches, made into a page. */
  lemma PageFetched(t: Table, q: Query, sel: Select, binds: seq<Bind>)
    requires Keyed(t) && forall row :: WhereHolds(sel.conds, binds, row) <==> Wanted(q, row)
    requires 1 <= sel.limit <= |binds| && binds[sel.limit - 1] == IntB(q.limit + 1)
    requires sel.order == if q.cursor.After? then Asc else Desc
    ensures var p := PageOf(Matching(t, q), q.cursor, q.limit);
            && AllIn(t, p.items) && |Answer(sel, binds, t)| <= q.limit + 1
            && ToPage(Answer(sel, binds, t), q.cursor, q.limit) == Page(RowsOf(t, p.items), p.hasNewer, p.hasOlder)
  {
    ChosenIds(t, q, sel, binds);
    Executed(t, sel, binds, q.limit + 1);
    FetchedPage(t, Listing(Selected(sel, binds, t)), q.cursor, sel.order, q.limit);
  }

  /**
   One page through generated SQL is the page of ids cut directly out of the matching set, with its
   rows: the statement, the extra row, the pop and the reversal cancel out.
   */
  method KeysetPage(t: Table, q: Query) returns (page: Page<Row>)
    requires Keyed(t)
    ensures var p := PageOf(Matching(t, q), q.cursor, q.limit);
            AllIn(t, p.items) && page == Page(RowsOf(t, p.items), p.hasNewer, p.hasOlder)
  {
    var sel, binds := KeysetSql(q);
    var fetched := Execute(sel, binds, t);
    PageFetched(t, q, sel, binds);
    page := RowsToPage(fetched, q.cursor, q.limit);
  }
}
