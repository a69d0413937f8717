/**
 The checks table and the code that rewrites it: single-row updates, the ping handler, the scan
 and nag passes, and the operator's buttons. Storage is assumed not to fail.
 */
module CheckStore {
  import opened Clock
  import opened Models
  import opened Options
  import opened Sets
  import opened Checks
  import opened CheckTable
  import Incidents
  import opened CheckHistory

  datatype PingRow = PingRow(checkId: int, kind: PingKind, exitCode: Option<int>, createdAt: Time)

  /** The row written by one ping; absent timestamps keep the stored value. */
  datatype PingMark = PingMark(status: Status, lastPingAt: Option<Time>, lastStartAt: Option<Time>, nextDueAt: Option<Time>)

  function Coalesce(a: Option<Time>, b: Option<Time>): Option<Time> {
    if a.Some? then a else b
  }

  function Marked(c: Check, m: PingMark): Check {
    c.(status := m.status,
       lastPingAt := Coalesce(m.lastPingAt, c.lastPingAt),
       lastStartAt := Coalesce(m.lastStartAt, c.lastStartAt),
       nextDueAt := m.nextDueAt)
  }

  /** `UPDATE ... WHERE id = $n`: nothing happens when the row is gone. */
  function Updated(t: map<int, Check>, id: int, f: Check -> Check): map<int, Check> {
    if id in t then t[id := f(t[id])] else t
  }

  /** A snapshot of some rows, each once. */
  ghost predicate Listed(rows: seq<Check>, t: map<int, Check>) {
    && (forall i :: 0 <= i < |rows| ==> rows[i].id in t && t[rows[i].id] == rows[i])
    && (forall i, j :: 0 <= i < j < |rows| ==> rows[i].id != rows[j].id)
  }

  class Store {
    var checks: map<int, Check>
    var pings: seq<PingRow>

    method InsertPing(row: PingRow)
      modifies this`pings
      ensures pings == old(pings) + [row]
    {
      pings := pings + [row];
    }

    method MarkPing(id: int, mark: PingMark)
      modifies this`checks
      ensures checks == Updated(old(checks), id, (c: Check) => Marked(c, mark))
    {
      if id in checks {
        checks := checks[id := Marked(checks[id], mark)];
      }
    }

    method SetStatus(id: int, status: Status)
      modifies this`checks
      ensures checks == Updated(old(checks), id, (c: Check) => c.(status := status))
    {
      if id in checks {
        checks := checks[id := checks[id].(status := status)];
      }
    }

    method BeginDownAlert(id: int, at: Time)
      modifies this`checks
      ensures checks == Updated(old(checks), id, (c: Check) => c.(lastAlertAt := Some(at), acknowledged := false))
    {
      if id in checks {
        checks := checks[id := checks[id].(lastAlertAt := Some(at), acknowledged := false)];
      }
    }

    method RecordReminder(id: int, at: Time)
      modifies this`checks
      ensures checks == Updated(old(checks), id, (c: Check) => c.(lastAlertAt := Some(at)))
    {
      if id in checks {
        checks := checks[id := checks[id].(lastAlertAt := Some(at))];
      }
    }

    method ClearNag(id: int)
      modifies this`checks
      ensures checks == Updated(old(checks), id, (c: Check) => c.(acknowledged := false, lastAlertAt := None))
    {
      if id in checks {
        checks := checks[id := checks[id].(acknowledged := false, lastAlertAt := None)];
      }
    }

    method Acknowledge(id: int)
      modifies this`checks
      ensures checks == Updated(old(checks), id, (c: Check) => c.(acknowledged := true))
    {
      if id in checks {
        checks := checks[id := checks[id].(acknowledged := true)];
      }
    }

    method UpdateCheckSchedule(id: int, to: Schedule)
      modifies this`checks
      ensures checks == Updated(old(checks), id, (c: Check) => c.(schedule := to))
    {
      if id in checks {
        checks := checks[id := checks[id].(schedule := to)];
      }
    }

    /** The rows whose status satisfies `wanted`, each once, in no particular order. */
    method ListChecks(wanted: Status -> bool) returns (rows: seq<Check>)
      requires Keyed(checks)
      ensures Listed(rows, checks)
      ensures forall i :: 0 <= i < |rows| ==> wanted(rows[i].status)
      ensures forall id :: id in checks && wanted(checks[id].status) ==> checks[id] in rows
    {
      rows := [];
      var ids := checks.Keys;
      while ids != {}
        invariant ids <= checks.Keys
        invariant Listed(rows, checks)
        invariant forall i :: 0 <= i < |rows| ==> wanted(rows[i].status) && rows[i].id !in ids
        invariant forall id :: id in checks && id !in ids && wanted(checks[id].status) ==> checks[id] in rows
        decreases ids
      {
        NonEmpty(ids);
        var id :| id in ids;
        ids := ids - {id};
        if wanted(checks[id].status) {
          rows := rows + [checks[id]];
        }
      }
    }
  }

  // ----- the ping handler -----

  datatype Reply = Done | NotFound

  /**
   One ping request: the ping is recorded, then the check's row is rewritten step by step from
   the snapshot read first. The result is the row and the events of `PingStep`.
   */
  method ApplyPing(store: Store, cron: CronClock, id: int, kind: AppliedKind, exitCode: Option<int>, now: Time)
    returns (reply: Reply, events: seq<Event>)
    requires Keyed(store.checks)
    modifies store
    ensures Keyed(store.checks)
    ensures id !in old(store.checks) ==>
              reply == NotFound && events == [] && store.checks == old(store.checks) && store.pings == old(store.pings)
    ensures id in old(store.checks) ==>
              && reply == Done
              && store.pings == old(store.pings) + [PingRow(id, kind, exitCode, now)]
              && (var (c, es) := Step(cron, old(store.checks)[id], Ping(kind, exitCode), now);
                  store.checks == old(store.checks)[id := c] && events == es)
    ensures Next(cron, old(store.checks), One(id, Ping(kind, exitCode)), now, store.checks, events)
  {
    events := [];
    if id !in store.checks {
      return NotFound, [];
    }
    var check := store.checks[id];
    store.InsertPing(PingRow(check.id, kind, exitCode, now));
    reply := Done;
    if check.status != Paused {
      events := MoveCheck(store, cron, check, kind, exitCode, now);
    }
    OneNext(cron, old(store.checks), id, Ping(kind, exitCode), now);
  }

  /** A ping that reports an exit code: zero moves the check as a success does, anything else as a failure. */
  method ApplyExitCode(store: Store, cron: CronClock, id: int, code: int, now: Time)
    returns (reply: Reply, events: seq<Event>)
    requires Keyed(store.checks)
    modifies store
    ensures Keyed(store.checks) && (reply == Done <==> id in old(store.checks))
    ensures reply == NotFound ==> store.checks == old(store.checks) && store.pings == old(store.pings)
    ensures reply == Done ==>
              exists kind: AppliedKind ::
                && (code == 0 ==> kind == Success) && (code != 0 ==> kind == Fail)
                && store.pings == old(store.pings) + [PingRow(id, kind, Some(code), now)]
                && Next(cron, old(store.checks), One(id, Ping(kind, Some(code))), now, store.checks, events)
  {
    reply, events := ApplyPing(store, cron, id, KindOfExitCode(code), Some(code), now);
  }

  /** The rewriting of an unpaused check's row, from its snapshot. */
  method MoveCheck(store: Store, cron: CronClock, check: Check, kind: AppliedKind, exitCode: Option<int>, now: Time)
    returns (events: seq<Event>)
    requires check.id in store.checks && store.checks[check.id] == check && check.status != Paused
    modifies store`checks
    ensures store.checks == old(store.checks)[check.id := PingStep(cron, check, kind, exitCode, now).0]
    ensures events == PingStep(cron, check, kind, exitCode, now).1
  {
    events := [];
    match kind {
      case Success =>
        var updated := check.(lastPingAt := Some(now));
        var next := DueTime(cron, updated);
        store.MarkPing(check.id, PingMark(Up, Some(now), None, next));
        if check.status == Down {
          store.ClearNag(check.id);
          events := [Event(check.id, UpEvent, now)];
        }
      case Fail =>
        store.MarkPing(check.id, PingMark(Down, Some(now), None, None));
        if check.status == Up || check.status == New {
          store.BeginDownAlert(check.id, now);
          events := [Event(check.id, DownEvent(Failed(exitCode)), now)];
        }
      case Start =>
        store.MarkPing(check.id, PingMark(check.status, None, Some(now), check.nextDueAt));
      case Log =>
    }
  }

  // ----- the passes -----

  /** Row `id` and its events are what `f` makes of its former row. */
  ghost predicate Stepped(was: map<int, Check>, t: map<int, Check>, es: seq<Event>, id: int, f: Check -> (Check, seq<Event>)) {
    id in was && id in t && t[id] == f(was[id]).0 && EventsOf(es, id) == f(was[id]).1
  }

  /** The rows in `seen` have been stepped; the others are untouched and have emitted nothing. */
  ghost predicate Progress(was: map<int, Check>, t: map<int, Check>, es: seq<Event>, seen: set<int>, f: Check -> (Check, seq<Event>)) {
    && t.Keys == was.Keys && Domestic(es, was)
    && (forall id :: id in seen ==> Stepped(was, t, es, id, f))
    && (forall id :: id in was && id !in seen ==> t[id] == was[id] && EventsOf(es, id) == [])
  }

  lemma ProgressStep(was: map<int, Check>, t: map<int, Check>, es: seq<Event>, seen: set<int>, f: Check -> (Check, seq<Event>), id: int, c: Check, more: seq<Event>)
    requires Progress(was, t, es, seen, f) && id in was && id !in seen
    requires (c, more) == f(was[id]) && |more| <= 1 && forall e :: e in more ==> e.checkId == id
    ensures Progress(was, t[id := c], es + more, seen + {id}, f)
  {
    forall j | j in was ensures EventsOf(es + more, j) == EventsOf(es, j) + if id == j then more else [] {
      EventsOfAppend(es, more, id, j);
    }
  }

  /** A pass does nothing to such a check. */
  ghost predicate Idle(c: Check, act: TableAction) {
    (act.ScanPass? && !Active(c)) || (act.NagPass? && c.status != Down)
  }

  ghost function Stepper(cron: CronClock, act: TableAction, at: Time): Check -> (Check, seq<Event>) {
    (c: Check) => LocalStep(cron, c, act, at)
  }

  /** A pass that has visited every row its step can change has taken the step everywhere. */
  lemma PassDone(cron: CronClock, was: map<int, Check>, act: TableAction, at: Time, t: map<int, Check>, es: seq<Event>, seen: set<int>)
    requires Progress(was, t, es, seen, Stepper(cron, act, at))
    requires forall id :: id in was && id !in seen ==> Idle(was[id], act)
    ensures Next(cron, was, act, at, t, es)
  {
  }

  lemma ScannedOnTime(cron: CronClock, was: map<int, Check>, now: Time, t: map<int, Check>, es: seq<Event>)
    requires Next(cron, was, ScanPass, now, t, es)
    ensures forall id :: id in t ==> Incidents.OnTime(cron, t[id], now)
    ensures Alarmed(cron, was, now, t, es)
  {
    forall id | id in was ensures (t[id], EventsOf(es, id)) == Step(cron, was[id], Scan, now) {
      assert (t[id], EventsOf(es, id)) == LocalStep(cron, was[id], ScanPass, now);
    }
    forall id | id in was {
      ScanAlarms(cron, was[id], now);
    }
  }

  /** Exactly the checks with an alarm have raised it and gone down; all other rows are as they were. */
  ghost predicate Alarmed(cron: CronClock, was: map<int, Check>, now: Time, t: map<int, Check>, es: seq<Event>) {
    forall id :: id in was ==>
      && id in t && EventsOf(es, id) == Alarm(cron, was[id], now)
      && t[id] == (if Alarm(cron, was[id], now) == [] then was[id]
                   else was[id].(status := Down, lastAlertAt := Some(now), acknowledged := false))
  }

  method ScanCheck(store: Store, cron: CronClock, check: Check, now: Time) returns (events: seq<Event>)
    requires Keyed(store.checks) && check.id in store.checks && store.checks[check.id] == check && Active(check)
    modifies store`checks
    ensures Keyed(store.checks)
    ensures store.checks == old(store.checks)[check.id := Step(cron, check, Scan, now).0]
    ensures events == Step(cron, check, Scan, now).1
  {
    var overdue := Reached(DueTime(cron, check), now);
    var overrun := Reached(OverrunTime(check), now);
    if !(overdue || overrun) {
      return [];
    }
    store.SetStatus(check.id, Down);
    store.BeginDownAlert(check.id, now);
    var cause := if overrun && check.schedule.maxRuntimeSecs.Some? && check.lastStartAt.Some?
                 then Overrun(check.schedule.maxRuntimeSecs.value, check.lastStartAt.value)
                 else Overdue;
    return [Event(check.id, DownEvent(cause), now)];
  }

  /** The loop of the scan: each listed check in turn. */
  method ScanRows(store: Store, cron: CronClock, rows: seq<Check>, now: Time)
    returns (events: seq<Event>, ghost seen: set<int>)
    requires Keyed(store.checks) && Listed(rows, store.checks)
    requires forall i :: 0 <= i < |rows| ==> Active(rows[i])
    modifies store`checks
    ensures Keyed(store.checks)
    ensures Progress(old(store.checks), store.checks, events, seen, Stepper(cron, ScanPass, now))
    ensures forall r :: r in rows ==> r.id in seen
  {
    events, seen := [], {};
    ghost var was := store.checks;
    for i := 0 to |rows|
      invariant Keyed(store.checks) && Progress(was, store.checks, events, seen, Stepper(cron, ScanPass, now))
      invariant forall j :: 0 <= j < i ==> rows[j].id in seen
      invariant forall j :: i <= j < |rows| ==> rows[j].id !in seen
    {
      ghost var before, id := store.checks, rows[i].id;
      var more := ScanCheck(store, cron, rows[i], now);
      ProgressStep(was, before, events, seen, Stepper(cron, ScanPass, now), id, store.checks[id], more);
      events := events + more;
      seen := seen + {id};
    }
  }

  /**
   Downs every active check that is overdue or overrun, one event each: every row and its events
   are those of a `Scan` step, and no active check is left late.
   */
  method ScanOnce(store: Store, cron: CronClock, now: Time) returns (events: seq<Event>)
    requires Keyed(store.checks)
    modifies store`checks
    ensures Keyed(store.checks) && store.checks.Keys == old(store.checks).Keys
    ensures forall id :: id in store.checks ==> Incidents.OnTime(cron, store.checks[id], now)
    ensures Alarmed(cron, old(store.checks), now, store.checks, events)
    ensures Next(cron, old(store.checks), ScanPass, now, store.checks, events)
  {
    var rows := store.ListChecks(s => s == New || s == Up);
    ghost var seen;
    events, seen := ScanRows(store, cron, rows, now);
    PassDone(cron, old(store.checks), ScanPass, now, store.checks, events, seen);
    ScannedOnTime(cron, old(store.checks), now, store.checks, events);
  }

  /** The interval a check is nagged at, its own, its project's or the global one, has passed since its baseline. */
  ghost predicate Overlooked(c: Check, nags: map<int, Option<int>>, global: Option<int>, now: Time) {
    var project := if c.projectId in nags then nags[c.projectId] else None;
    && c.status == Down && !c.acknowledged && c.lastAlertAt.Some?
    && exists n :: IntervalIs(c.schedule.nagIntervalSecs, project, global, n)
                   && now - c.lastAlertAt.value >= n * 1_000_000_000
  }

  /** Exactly those checks were reminded of and their baseline moved; all other rows are as they were. */
  ghost predicate Reminded(was: map<int, Check>, nags: map<int, Option<int>>, global: Option<int>, now: Time,
                           t: map<int, Check>, es: seq<Event>) {
    forall id :: id in was ==>
      && id in t
      && EventsOf(es, id) == (if Overlooked(was[id], nags, global, now) then [Event(was[id].id, Reminder, now)] else [])
      && t[id] == (if Overlooked(was[id], nags, global, now) then was[id].(lastAlertAt := Some(now)) else was[id])
  }

  lemma NaggedReminds(cron: CronClock, was: map<int, Check>, nags: map<int, Option<int>>, global: Option<int>, now: Time,
                      t: map<int, Check>, es: seq<Event>)
    requires Next(cron, was, NagPass(nags, global), now, t, es)
    ensures Reminded(was, nags, global, now, t, es)
  {
    forall id | id in was
      ensures id in t
      ensures EventsOf(es, id) == (if Overlooked(was[id], nags, global, now) then [Event(was[id].id, Reminder, now)] else [])
      ensures t[id] == (if Overlooked(was[id], nags, global, now) then was[id].(lastAlertAt := Some(now)) else was[id])
    {
      var project := if was[id].projectId in nags then nags[was[id].projectId] else None;
      assert id in t.Keys;
      assert (t[id], EventsOf(es, id)) == LocalStep(cron, was[id], NagPass(nags, global), now);
      assert (t[id], EventsOf(es, id)) == Step(cron, was[id], Nag(project, global), now);
      NagReminds(cron, was[id], project, global, now);
    }
  }

  method NagCheck(store: Store, check: Check, project: Option<int>, global: Option<int>, now: Time)
    returns (events: seq<Event>)
    requires Keyed(store.checks) && check.id in store.checks && store.checks[check.id] == check && check.status == Down
    modifies store`checks
    ensures Keyed(store.checks)
    ensures store.checks == old(store.checks)[check.id := NagStep(check, project, global, now).0]
    ensures events == NagStep(check, project, global, now).1
  {
    if check.acknowledged {
      return [];
    }
    var interval := EffectiveNag(check.schedule.nagIntervalSecs, project, global);
    if interval == None || check.lastAlertAt == None {
      return [];
    }
    if now < check.lastAlertAt.value + Seconds(interval.value) {
      return [];
    }
    store.RecordReminder(check.id, now);
    return [Event(check.id, Reminder, now)];
  }

  /** The loop of the nag pass. */
  method NagRows(store: Store, rows: seq<Check>, projectNags: map<int, Option<int>>, globalNag: Option<int>, now: Time, ghost cron: CronClock)
    returns (events: seq<Event>, ghost seen: set<int>)
    requires Keyed(store.checks) && Listed(rows, store.checks)
    requires forall i :: 0 <= i < |rows| ==> rows[i].status == Down
    modifies store`checks
    ensures Keyed(store.checks)
    ensures Progress(old(store.checks), store.checks, events, seen, Stepper(cron, NagPass(projectNags, globalNag), now))
    ensures forall r :: r in rows ==> r.id in seen
  {
    events, seen := [], {};
    ghost var was, act := store.checks, NagPass(projectNags, globalNag);
    for i := 0 to |rows|
      invariant Keyed(store.checks) && Progress(was, store.checks, events, seen, Stepper(cron, act, now))
      invariant forall j :: 0 <= j < i ==> rows[j].id in seen
      invariant forall j :: i <= j < |rows| ==> rows[j].id !in seen
    {
      ghost var before, id := store.checks, rows[i].id;
      var more := NagCheck(store, rows[i], ProjectNag(projectNags, rows[i].projectId), globalNag, now);
      ProgressStep(was, before, events, seen, Stepper(cron, act, now), id, store.checks[id], more);
      events := events + more;
      seen := seen + {id};
    }
  }

  /** One pass over the down checks: every row and its events are those of a `Nag` step. */
  method NagOnce(store: Store, projectNags: map<int, Option<int>>, globalNag: Option<int>, now: Time, ghost cron: CronClock)
    returns (events: seq<Event>)
    requires Keyed(store.checks)
    modifies store`checks
    ensures Keyed(store.checks) && store.checks.Keys == old(store.checks).Keys
    ensures Next(cron, old(store.checks), NagPass(projectNags, globalNag), now, store.checks, events)
    ensures Reminded(old(store.checks), projectNags, globalNag, now, store.checks, events)
  {
    var rows := store.ListChecks(s => s == Down);
    ghost var seen;
    events, seen := NagRows(store, rows, projectNags, globalNag, now, cron);
    PassDone(cron, old(store.checks), NagPass(projectNags, globalNag), now, store.checks, events, seen);
    NaggedReminds(cron, old(store.checks), projectNags, globalNag, now, store.checks, events);
  }

  // ----- the operator's buttons -----

  /** A check is its project owner's; anybody else's is reported as missing. */
  predicate Owned(t: map<int, Check>, owners: map<int, int>, id: int, user: int) {
    id in t && t[id].projectId in owners && owners[t[id].projectId] == user
  }

  /** The table after `act` on check `id` by `user`. */
  ghost function Operated(cron: CronClock, t: map<int, Check>, owners: map<int, int>, id: int, user: int, act: Action, now: Time): map<int, Check> {
    if Owned(t, owners, id, user) then t[id := Step(cron, t[id], act, now).0] else t
  }

  method CheckPause(store: Store, owners: map<int, int>, user: int, id: int, ghost cron: CronClock, ghost now: Time)
    returns (reply: Reply)
    modifies store`checks
    ensures reply == if Owned(old(store.checks), owners, id, user) then Done else NotFound
    ensures store.checks == Operated(cron, old(store.checks), owners, id, user, Pause, now)
    ensures reply == Done ==> store.checks == old(store.checks)[id := old(store.checks)[id].(status := Paused)]
    ensures reply == Done && Keyed(old(store.checks)) ==> Next(cron, old(store.checks), One(id, Pause), now, store.checks, [])
  {
    if !Owned(store.checks, owners, id, user) {
      return NotFound;
    }
    store.SetStatus(id, Paused);
    return Done;
  }

  /** Sets `New` from any state. */
  method CheckResume(store: Store, owners: map<int, int>, user: int, id: int, ghost cron: CronClock, ghost now: Time)
    returns (reply: Reply)
    modifies store`checks
    ensures reply == if Owned(old(store.checks), owners, id, user) then Done else NotFound
    ensures store.checks == Operated(cron, old(store.checks), owners, id, user, Resume, now)
    ensures reply == Done ==> store.checks == old(store.checks)[id := old(store.checks)[id].(status := New)]
    ensures reply == Done && Keyed(old(store.checks)) ==> Next(cron, old(store.checks), One(id, Resume), now, store.checks, [])
  {
    if !Owned(store.checks, owners, id, user) {
      return NotFound;
    }
    store.SetStatus(id, New);
    return Done;
  }

  /** Acknowledges whatever the status is. */
  method CheckAck(store: Store, owners: map<int, int>, user: int, id: int, ghost cron: CronClock, ghost now: Time)
    returns (reply: Reply)
    modifies store`checks
    ensures reply == if Owned(old(store.checks), owners, id, user) then Done else NotFound
    ensures store.checks == Operated(cron, old(store.checks), owners, id, user, Ack, now)
    ensures reply == Done ==> store.checks == old(store.checks)[id := old(store.checks)[id].(acknowledged := true)]
    ensures reply == Done && Keyed(old(store.checks)) ==> Next(cron, old(store.checks), One(id, Ack), now, store.checks, [])
  {
    if !Owned(store.checks, owners, id, user) {
      return NotFound;
    }
    store.Acknowledge(id);
    return Done;
  }

  // ----- how often to scan -----

  predicate Positive(v: Option<int>) {
    v.Some? && v.value > 0
  }

  /** First positive of check, project and global settings, else the environment's, at least one second. */
  function EffectiveScan(check: Option<int>, project: Option<int>, global: Option<int>, envDefault: nat): (secs: nat)
    ensures secs >= 1
    ensures Positive(check) ==> Some(secs) == check
    ensures !Positive(check) && Positive(project) ==> Some(secs) == project
    ensures !Positive(check) && !Positive(project) && Positive(global) ==> Some(secs) == global
    ensures !Positive(check) && !Positive(project) && !Positive(global) ==> secs == if envDefault >= 1 then envDefault else 1
  {
    if check.Some? && check.value > 0 then check.value
    else if project.Some? && project.value > 0 then project.value
    else if global.Some? && global.value > 0 then global.value
    else if envDefault >= 1 then envDefault else 1
  }

  /** The scan period: the smallest effective interval of the active checks. */
  method LoopInterval(intervals: seq<(Option<int>, Option<int>)>, global: Option<int>, envDefault: nat) returns (secs: nat)
    ensures secs >= 1
    ensures intervals == [] ==> secs == if envDefault >= 1 then envDefault else 1
    ensures intervals != [] ==> exists i :: 0 <= i < |intervals| && secs == EffectiveScan(intervals[i].0, intervals[i].1, global, envDefault)
    ensures forall i :: 0 <= i < |intervals| ==> secs <= EffectiveScan(intervals[i].0, intervals[i].1, global, envDefault)
  {
    if intervals == [] {
      return if envDefault >= 1 then envDefault else 1;
    }
    secs := EffectiveScan(intervals[0].0, intervals[0].1, global, envDefault);
    for i := 1 to |intervals|
      invariant secs >= 1
      invariant exists j :: 0 <= j < i && secs == EffectiveScan(intervals[j].0, intervals[j].1, global, envDefault)
      invariant forall j :: 0 <= j < i ==> secs <= EffectiveScan(intervals[j].0, intervals[j].1, global, envDefault)
    {
      var next := EffectiveScan(intervals[i].0, intervals[i].1, global, envDefault);
      if next < secs {
        secs := next;
      }
    }
  }
}
