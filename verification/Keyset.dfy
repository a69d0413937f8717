/**
 The keyset query builder. Its output is a small SQL statement with numbered placeholders and a
 parallel list of binds; `Execute` says what a database makes of the two.
 */
module Keyset {
  import opened Options
  import opened Timestamps

  datatype Value = Null | IntV(n: int) | TextV(text: string)

  datatype Row = Row(id: int, cols: map<string, Value>) {
    function Col(name: string): Value {
      if name == "id" then IntV(id)
      else if name in cols then cols[name] else Null
    }
  }

  /** A table by row id. */
  type Table = map<int, Row>

  // ----- statements and what they select -----

  datatype Bind = IntB(n: int) | TextB(text: string)

  /** `col op $n` or `col IN ($n,...)`; placeholders count from 1. */
  datatype Cond = Compare(col: string, op: string, ph: nat) | InList(col: string, phs: seq<nat>)

  datatype Order = Asc | Desc

  datatype Select = Select(table: string, conds: seq<Cond>, order: Order, limit: nat)

  predicate TextOp(a: string, op: string, b: string) {
    match op
    case "=" => a == b
    case ">=" => !Less(a, b)
    case "<=" => !Less(b, a)
    case _ => false
  }

  predicate IntOp(a: int, op: string, b: int) {
    match op
    case "=" => a == b
    case "<" => a < b
    case ">" => a > b
    case _ => false
  }

  /** A comparison with `NULL`, or across types, selects nothing. */
  predicate Compares(v: Value, op: string, b: Bind) {
    match (v, b)
    case (IntV(x), IntB(y)) => IntOp(x, op, y)
    case (TextV(x), TextB(y)) => TextOp(x, op, y)
    case _ => false
  }

  predicate PhCompares(v: Value, op: string, ph: nat, binds: seq<Bind>) {
    1 <= ph <= |binds| && Compares(v, op, binds[ph - 1])
  }

  predicate CondHolds(c: Cond, binds: seq<Bind>, row: Row) {
    match c
    case Compare(col, op, ph) => PhCompares(row.Col(col), op, ph, binds)
    case InList(col, phs) => exists i :: 0 <= i < |phs| && PhCompares(row.Col(col), "=", phs[i], binds)
  }

  predicate WhereHolds(conds: seq<Cond>, binds: seq<Bind>, row: Row) {
    forall i :: 0 <= i < |conds| ==> CondHolds(conds[i], binds, row)
  }

  // ----- queries -----

  datatype Predicate = TextCmp(col: string, op: string, value: string) | TextIn(col: string, values: seq<string>)

  datatype Cursor = Latest | Before(id: int) | After(id: int)

  datatype Scope = Scope(col: string, id: int)

  datatype Query = Query(table: string, scope: Option<Scope>, cursor: Cursor, limit: nat, filters: seq<Predicate>)

  /** What a filter asks of a row. */
  predicate Passes(p: Predicate, row: Row) {
    match p
    case TextCmp(col, op, v) => Compares(row.Col(col), op, TextB(v))
    case TextIn(col, vs) => row.Col(col).TextV? && row.Col(col).text in vs
  }

  predicate InScope(s: Option<Scope>, row: Row) {
    s.None? || Compares(row.Col(s.value.col), "=", IntB(s.value.id))
  }

  predicate AllPass(ps: seq<Predicate>, row: Row) {
    forall i :: 0 <= i < |ps| ==> Passes(ps[i], row)
  }

  predicate Admits(c: Cursor, id: int) {
    match c
    case Latest => true
    case Before(b) => id < b
    case After(a) => id > a
  }

  /** The rows a query is about, said without SQL. */
  predicate Wanted(q: Query, row: Row) {
    InScope(q.scope, row) && AllPass(q.filters, row) && Admits(q.cursor, row.id)
  }

  // ----- placeholders -----

  /** `n` consecutive numbers from `lo`. */
  function Range(lo: nat, n: nat): (r: seq<nat>)
    ensures |r| == n && forall i :: 0 <= i < n ==> r[i] == lo + i
  {
    seq(n, i => lo + i)
  }

  function PhsOf(c: Cond): seq<nat> {
    match c
    case Compare(_, _, ph) => [ph]
    case InList(_, phs) => phs
  }

  /** Every placeholder of the conditions, left to right. */
  function Phs(conds: seq<Cond>): seq<nat> {
    if conds == [] then [] else Phs(conds[..|conds| - 1]) + PhsOf(conds[|conds| - 1])
  }

  /** The conditions use `$1 .. $n` in order, each once, one for each bind. */
  ghost predicate Aligned(conds: seq<Cond>, binds: seq<Bind>) {
    Phs(conds) == Range(1, |binds|)
  }

  lemma {:induction false} PhsMember(conds: seq<Cond>, i: nat, ph: nat)
    requires i < |conds| && ph in PhsOf(conds[i])
    ensures ph in Phs(conds)
  {
    if i < |conds| - 1 {
      PhsMember(conds[..|conds| - 1], i, ph);
    }
  }

  /** Further binds do not change what aligned conditions mean. */
  lemma MoreBinds(conds: seq<Cond>, binds: seq<Bind>, more: seq<Bind>, row: Row)
    requires Aligned(conds, binds)
    ensures WhereHolds(conds, binds + more, row) == WhereHolds(conds, binds, row)
  {
    forall i | 0 <= i < |conds|
      ensures CondHolds(conds[i], binds + more, row) == CondHolds(conds[i], binds, row)
    {
      forall ph | ph in PhsOf(conds[i]) ensures 1 <= ph <= |binds| {
        PhsMember(conds, i, ph);
      }
      match conds[i]
      case Compare(_, _, ph) => assert ph in PhsOf(conds[i]);
      case InList(col, phs) =>
        assert forall j :: 0 <= j < |phs| ==> phs[j] in PhsOf(conds[i]);
        assert forall j :: 0 <= j < |phs| ==>
          PhCompares(row.Col(col), "=", phs[j], binds + more) == PhCompares(row.Col(col), "=", phs[j], binds);
    }
  }

  /** Pushing a condition with its own fresh binds conjoins it. */
  lemma PushCond(conds: seq<Cond>, binds: seq<Bind>, c: Cond, more: seq<Bind>)
    requires Aligned(conds, binds) && PhsOf(c) == Range(|binds| + 1, |more|)
    ensures Aligned(conds + [c], binds + more)
    ensures forall row :: WhereHolds(conds + [c], binds + more, row) <==>
                            WhereHolds(conds, binds, row) && CondHolds(c, binds + more, row)
  {
    assert (conds + [c])[..|conds|] == conds;
    forall row ensures WhereHolds(conds + [c], binds + more, row) <==>
                         WhereHolds(conds, binds, row) && CondHolds(c, binds + more, row)
    {
      MoreBinds(conds, binds, more, row);
      WhereAppend(conds, c, binds + more, row);
    }
  }

  lemma WhereAppend(conds: seq<Cond>, c: Cond, binds: seq<Bind>, row: Row)
    ensures WhereHolds(conds + [c], binds, row) <==> WhereHolds(conds, binds, row) && CondHolds(c, binds, row)
  {
    if WhereHolds(conds + [c], binds, row) {
      assert CondHolds((conds + [c])[|conds|], binds, row);
      forall i | 0 <= i < |conds| ensures CondHolds(conds[i], binds, row) {
        assert CondHolds((conds + [c])[i], binds, row);
      }
    }
  }

  lemma PassAppend(ps: seq<Predicate>, i: nat, row: Row)
    requires i < |ps|
    ensures AllPass(ps[..i + 1], row) <==> AllPass(ps[..i], row) && Passes(ps[i], row)
  {
  }

  // ----- the builder -----

  /** The binds and placeholders of one `IN` list. */
  method BindList(binds: seq<Bind>, values: seq<string>) returns (binds': seq<Bind>, phs: seq<nat>)
    ensures binds' == binds + seq(|values|, i requires 0 <= i < |values| => TextB(values[i]))
    ensures phs == Range(|binds| + 1, |values|)
  {
    binds', phs := binds, [];
    for i := 0 to |values|
      invariant binds' == binds + seq(i, j requires 0 <= j < |values| => TextB(values[j]))
      invariant phs == Range(|binds| + 1, i)
    {
      binds' := binds' + [TextB(values[i])];
      phs := phs + [|binds'|];
    }
  }

  lemma InListPasses(col: string, values: seq<string>, binds: seq<Bind>, more: seq<Bind>, phs: seq<nat>, row: Row)
    requires |more| == |values| && forall i :: 0 <= i < |values| ==> more[i] == TextB(values[i])
    requires phs == Range(|binds| + 1, |values|)
    ensures CondHolds(InList(col, phs), binds + more, row) <==> Passes(TextIn(col, values), row)
  {
    var v := row.Col(col);
    if Passes(TextIn(col, values), row) {
      var i :| 0 <= i < |values| && values[i] == v.text;
      assert PhCompares(v, "=", phs[i], binds + more);
    }
  }

  /** One filter's condition and binds. */
  method PushFilter(conds: seq<Cond>, binds: seq<Bind>, f: Predicate) returns (conds': seq<Cond>, binds': seq<Bind>)
    requires Aligned(conds, binds)
    ensures Aligned(conds', binds')
    ensures forall row :: WhereHolds(conds', binds', row) <==> WhereHolds(conds, binds, row) && Passes(f, row)
  {
    match f {
      case TextCmp(col, op, v) =>
        PushCond(conds, binds, Compare(col, op, |binds| + 1), [TextB(v)]);
        binds' := binds + [TextB(v)];
        conds' := conds + [Compare(col, op, |binds'|)];
      case TextIn(col, values) =>
        var phs: seq<nat>;
        binds', phs := BindList(binds, values);
        conds' := conds + [InList(col, phs)];
        ghost var more := binds'[|binds|..];
        assert binds' == binds + more;
        PushCond(conds, binds, InList(col, phs), more);
        forall row ensures CondHolds(InList(col, phs), binds', row) <==> Passes(f, row) {
          InListPasses(col, values, binds, more, phs, row);
        }
    }
  }

  /** The cursor's condition, bind and sort order. */
  method PushCursor(conds: seq<Cond>, binds: seq<Bind>, cursor: Cursor)
    returns (conds': seq<Cond>, binds': seq<Bind>, order: Order)
    requires Aligned(conds, binds)
    ensures Aligned(conds', binds')
    ensures forall row :: WhereHolds(conds', binds', row) <==> WhereHolds(conds, binds, row) && Admits(cursor, row.id)
    ensures order == if cursor.After? then Asc else Desc
  {
    match cursor {
      case Latest =>
        return conds, binds, Desc;
      case Before(id) =>
        PushCond(conds, binds, Compare("id", "<", |binds| + 1), [IntB(id)]);
        binds' := binds + [IntB(id)];
        conds' := conds + [Compare("id", "<", |binds'|)];
        order := Desc;
      case After(id) =>
        PushCond(conds, binds, Compare("id", ">", |binds| + 1), [IntB(id)]);
        binds' := binds + [IntB(id)];
        conds' := conds + [Compare("id", ">", |binds'|)];
        order := Asc;
    }
  }

  /**
   The statement and its binds. Placeholders are `$1 .. $n` in order of use, one for each bind, and
   the `WHERE` clause selects exactly the wanted rows, for every filter list.
   */
  method KeysetSql(q: Query) returns (sel: Select, binds: seq<Bind>)
    ensures Phs(sel.conds) + [sel.limit] == Range(1, |binds|)
    ensures forall row :: WhereHolds(sel.conds, binds, row) <==> Wanted(q, row)
    ensures sel.table == q.table
    ensures sel.order == if q.cursor.After? then Asc else Desc
    ensures 1 <= sel.limit <= |binds| && binds[sel.limit - 1] == IntB(q.limit + 1)
  {
    var conds: seq<Cond> := [];
    binds := [];
    if q.scope.Some? {
      PushCond(conds, binds, Compare(q.scope.value.col, "=", 1), [IntB(q.scope.value.id)]);
      binds := binds + [IntB(q.scope.value.id)];
      conds := conds + [Compare(q.scope.value.col, "=", |binds|)];
    }
    for i := 0 to |q.filters|
      invariant Aligned(conds, binds)
      invariant forall row :: WhereHolds(conds, binds, row) <==> InScope(q.scope, row) && AllPass(q.filters[..i], row)
    {
      conds, binds := PushFilter(conds, binds, q.filters[i]);
      forall row ensures AllPass(q.filters[..i + 1], row) <==> AllPass(q.filters[..i], row) && Passes(q.filters[i], row) {
        PassAppend(q.filters, i, row);
      }
    }
    assert q.filters[..|q.filters|] == q.filters;
    var order;
    conds, binds, order := PushCursor(conds, binds, q.cursor);
    forall row ensures WhereHolds(conds, binds + [IntB(q.limit + 1)], row) == WhereHolds(conds, binds, row) {
      MoreBinds(conds, binds, [IntB(q.limit + 1)], row);
    }
    binds := binds + [IntB(q.limit + 1)];
    sel := Select(q.table, conds, order, |binds|);
  }
}
