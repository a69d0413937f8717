/** The history filters: what their predicate lists mean for stored rows. */
module Filters {
  import opened Models
  import opened Options
  import opened Timestamps
  import opened Keyset

  datatype EventKind = Down | Up | Reminder

  datatype NotifyStatus = Delivered | Failed

  function KindText(k: PingKind): string {
    match k
    case Success => "success"
    case Fail => "fail"
    case Start => "start"
    case Log => "log"
    case Exitcode => "exitcode"
  }

  function EventText(e: EventKind): string {
    match e
    case Down => "down"
    case Up => "up"
    case Reminder => "reminder"
  }

  function StatusText(s: NotifyStatus): string {
    match s
    case Delivered => "ok"
    case Failed => "error"
  }

  // ----- rows -----

  datatype PingRec = PingRec(id: int, checkId: int, kind: PingKind, createdAt: Stamp)

  datatype NotifRec = NotifRec(id: int, checkId: int, event: EventKind, status: NotifyStatus, createdAt: Stamp)

  datatype AuditRec = AuditRec(id: int, actor: string, action: string, createdAt: Stamp)

  function PingStored(r: PingRec): Row {
    Row(r.id, map["check_id" := IntV(r.checkId), "kind" := TextV(KindText(r.kind)), "created_at" := TextV(Text(r.createdAt))])
  }

  function NotifStored(r: NotifRec): Row {
    Row(r.id, map["check_id" := IntV(r.checkId), "event" := TextV(EventText(r.event)),
                  "status" := TextV(StatusText(r.status)), "created_at" := TextV(Text(r.createdAt))])
  }

  function AuditStored(r: AuditRec): Row {
    Row(r.id, map["actor_username" := TextV(r.actor), "action" := TextV(r.action), "created_at" := TextV(Text(r.createdAt))])
  }

  // ----- filters -----

  datatype PingFilter = PingFilter(kinds: seq<PingKind>, from: Option<Stamp>, to: Option<Stamp>)

  datatype NotifFilter = NotifFilter(events: seq<EventKind>, statuses: seq<NotifyStatus>, from: Option<Stamp>, to: Option<Stamp>)

  datatype AuditFilter = AuditFilter(actor: Option<string>, action: Option<string>, from: Option<Stamp>, to: Option<Stamp>)

  function KindTexts(ks: seq<PingKind>): seq<string> {
    seq(|ks|, i requires 0 <= i < |ks| => KindText(ks[i]))
  }

  function EventTexts(es: seq<EventKind>): seq<string> {
    seq(|es|, i requires 0 <= i < |es| => EventText(es[i]))
  }

  function StatusTexts(ss: seq<NotifyStatus>): seq<string> {
    seq(|ss|, i requires 0 <= i < |ss| => StatusText(ss[i]))
  }

  function BoundPredicates(from: Option<Stamp>, to: Option<Stamp>): seq<Predicate> {
    (match from case None => [] case Some(f) => [TextCmp("created_at", ">=", Text(f))])
    + (match to case None => [] case Some(t) => [TextCmp("created_at", "<=", Text(t))])
  }

  function PingPredicates(f: PingFilter): seq<Predicate> {
    (if f.kinds == [] then [] else [TextIn("kind", KindTexts(f.kinds))]) + BoundPredicates(f.from, f.to)
  }

  function NotifPredicates(f: NotifFilter): seq<Predicate> {
    (if f.events == [] then [] else [TextIn("event", EventTexts(f.events))])
    + (if f.statuses == [] then [] else [TextIn("status", StatusTexts(f.statuses))])
    + BoundPredicates(f.from, f.to)
  }

  function AuditPredicates(f: AuditFilter): seq<Predicate> {
    (match f.actor case None => [] case Some(a) => [TextCmp("actor_username", "=", a)])
    + (match f.action case None => [] case Some(a) => [TextCmp("action", "=", a)])
    + BoundPredicates(f.from, f.to)
  }

  // ----- what they mean -----

  /** The instant lies within the bounds, both inclusive. */
  predicate Within(t: Stamp, from: Option<Stamp>, to: Option<Stamp>) {
    && (from.Some? ==> !t.Before(from.value))
    && (to.Some? ==> !to.value.Before(t))
  }

  predicate ValidBounds(from: Option<Stamp>, to: Option<Stamp>) {
    (from.Some? ==> from.value.Valid()) && (to.Some? ==> to.value.Valid())
  }

  lemma PassConcat(a: seq<Predicate>, b: seq<Predicate>, row: Row)
    ensures AllPass(a + b, row) <==> AllPass(a, row) && AllPass(b, row)
  {
    if AllPass(a + b, row) {
      forall i | 0 <= i < |a| ensures Passes(a[i], row) {
        assert Passes((a + b)[i], row);
      }
      forall i | 0 <= i < |b| ensures Passes(b[i], row) {
        assert Passes((a + b)[|a| + i], row);
      }
    }
  }

  lemma PassOne(p: Predicate, row: Row)
    ensures AllPass([p], row) <==> Passes(p, row)
    ensures AllPass([], row)
  {
    if AllPass([p], row) {
      assert Passes([p][0], row);
    }
  }

  lemma BoundsMean(t: Stamp, from: Option<Stamp>, to: Option<Stamp>, row: Row)
    requires t.Valid() && ValidBounds(from, to) && row.Col("created_at") == TextV(Text(t))
    ensures AllPass(BoundPredicates(from, to), row) <==> Within(t, from, to)
  {
    var a: seq<Predicate> := match from case None => [] case Some(f) => [TextCmp("created_at", ">=", Text(f))];
    var b: seq<Predicate> := match to case None => [] case Some(u) => [TextCmp("created_at", "<=", Text(u))];
    PassConcat(a, b, row);
    if from.Some? {
      PassOne(a[0], row);
      TextOrderIsTimeOrder(t, from.value);
    }
    if to.Some? {
      PassOne(b[0], row);
      TextOrderIsTimeOrder(to.value, t);
    }
  }

  /** An empty kind list and absent bounds constrain nothing; otherwise kinds and instants decide. */
  lemma PingFilterMeans(f: PingFilter, r: PingRec)
    requires r.createdAt.Valid() && ValidBounds(f.from, f.to)
    ensures AllPass(PingPredicates(f), PingStored(r)) <==>
              (f.kinds == [] || r.kind in f.kinds) && Within(r.createdAt, f.from, f.to)
  {
    var row := PingStored(r);
    var a: seq<Predicate> := if f.kinds == [] then [] else [TextIn("kind", KindTexts(f.kinds))];
    PassConcat(a, BoundPredicates(f.from, f.to), row);
    BoundsMean(r.createdAt, f.from, f.to, row);
    if f.kinds != [] {
      PassOne(a[0], row);
      if r.kind in f.kinds {
        var i :| 0 <= i < |f.kinds| && f.kinds[i] == r.kind;
        assert KindTexts(f.kinds)[i] == KindText(r.kind);
      }
    }
  }

  lemma NotifFilterMeans(f: NotifFilter, r: NotifRec)
    requires r.createdAt.Valid() && ValidBounds(f.from, f.to)
    ensures AllPass(NotifPredicates(f), NotifStored(r)) <==>
              && (f.events == [] || r.event in f.events)
              && (f.statuses == [] || r.status in f.statuses)
              && Within(r.createdAt, f.from, f.to)
  {
    var row := NotifStored(r);
    var a: seq<Predicate> := if f.events == [] then [] else [TextIn("event", EventTexts(f.events))];
    var b: seq<Predicate> := if f.statuses == [] then [] else [TextIn("status", StatusTexts(f.statuses))];
    PassConcat(a + b, BoundPredicates(f.from, f.to), row);
    PassConcat(a, b, row);
    BoundsMean(r.createdAt, f.from, f.to, row);
    if f.events != [] {
      PassOne(a[0], row);
      if r.event in f.events {
        var i :| 0 <= i < |f.events| && f.events[i] == r.event;
        assert EventTexts(f.events)[i] == EventText(r.event);
      }
    }
    if f.statuses != [] {
      PassOne(b[0], row);
      if r.status in f.statuses {
        var i :| 0 <= i < |f.statuses| && f.statuses[i] == r.status;
        assert StatusTexts(f.statuses)[i] == StatusText(r.status);
      }
    }
  }

  lemma AuditFilterMeans(f: AuditFilter, r: AuditRec)
    requires r.createdAt.Valid() && ValidBounds(f.from, f.to)
    ensures AllPass(AuditPredicates(f), AuditStored(r)) <==>
              && (f.actor.Some? ==> r.actor == f.actor.value)
              && (f.action.Some? ==> r.action == f.action.value)
              && Within(r.createdAt, f.from, f.to)
  {
    var row := AuditStored(r);
    var a: seq<Predicate> := match f.actor case None => [] case Some(x) => [TextCmp("actor_username", "=", x)];
    var b: seq<Predicate> := match f.action case None => [] case Some(x) => [TextCmp("action", "=", x)];
    PassConcat(a + b, BoundPredicates(f.from, f.to), row);
    PassConcat(a, b, row);
    BoundsMean(r.createdAt, f.from, f.to, row);
    if f.actor.Some? {
      PassOne(a[0], row);
    }
    if f.action.Some? {
      PassOne(b[0], row);
    }
  }

  /**
   The statement behind a check's ping history selects exactly its pings of the chosen kinds, within
   the chosen instants, on the cursor's side, nearest to it first, and asks for one row more than a
   page. Placeholders are `$1 .. $n`, one for each bind.
   */
  method PingHistorySql(checkId: int, cursor: Cursor, limit: nat, f: PingFilter)
    returns (sel: Select, binds: seq<Bind>)
    requires ValidBounds(f.from, f.to)
    ensures sel.table == "pings" && sel.order == (if cursor.After? then Asc else Desc)
    ensures Phs(sel.conds) + [sel.limit] == Range(1, |binds|)
    ensures 1 <= sel.limit <= |binds| && binds[sel.limit - 1] == IntB(limit + 1)
    ensures forall r: PingRec :: r.createdAt.Valid() ==>
              (WhereHolds(sel.conds, binds, PingStored(r)) <==>
                 && r.checkId == checkId
                 && (f.kinds == [] || r.kind in f.kinds)
                 && Within(r.createdAt, f.from, f.to)
                 && Admits(cursor, r.id))
  {
    var q := Query("pings", Some(Scope("check_id", checkId)), cursor, limit, PingPredicates(f));
    sel, binds := KeysetSql(q);
    forall r: PingRec | r.createdAt.Valid()
      ensures Wanted(q, PingStored(r)) <==>
                && r.checkId == checkId
                && (f.kinds == [] || r.kind in f.kinds)
                && Within(r.createdAt, f.from, f.to)
                && Admits(cursor, r.id)
    {
      PingFilterMeans(f, r);
    }
  }
}
