/** One monitored check: its stored row, its deadlines, and what each request or pass does to it. */
module Checks {
  import opened Clock
  import opened Models
  import opened Options

  datatype Status = New | Up | Down | Paused

  datatype Schedule = Schedule(
    kind: ScheduleKind,
    periodSecs: Option<int>,
    graceSecs: int,
    cronExpr: Option<string>,
    timezone: string,
    maxRuntimeSecs: Option<int>,
    nagIntervalSecs: Option<int>)

  datatype Check = Check(
    id: int,
    projectId: int,
    schedule: Schedule,
    status: Status,
    lastPingAt: Option<Time>,
    lastStartAt: Option<Time>,
    nextDueAt: Option<Time>,
    lastAlertAt: Option<Time>,
    acknowledged: bool,
    createdAt: Time)

  /** The next time an expression fires in a zone after an instant; `None` when it is unusable. */
  type CronClock = (string, string, Time) -> Option<Time>

  /** The `/ping/{uuid}/{code}` route. */
  function KindOfExitCode(code: int): AppliedKind {
    if code == 0 then Success else Fail
  }

  datatype DownCause = Failed(exitCode: Option<int>) | Overdue | Overrun(maxRuntimeSecs: int, startedAt: Time)

  datatype EventKind = DownEvent(cause: DownCause) | UpEvent | Reminder

  datatype Event = Event(checkId: int, kind: EventKind, at: Time)

  // ----- deadlines -----

  /** Last ping that moved the check, else its creation. */
  function Anchor(c: Check): Time {
    if c.lastPingAt.Some? then c.lastPingAt.value else c.createdAt
  }

  /** When the check becomes overdue, grace included. */
  function DueTime(cron: CronClock, c: Check): Option<Time> {
    match c.schedule.kind
    case Period =>
      (match c.schedule.periodSecs
       case None => None
       case Some(p) => Some(Anchor(c) + Seconds(p) + Seconds(c.schedule.graceSecs)))
    case Cron =>
      (match c.schedule.cronExpr
       case None => None
       case Some(expr) =>
         match cron(expr, c.schedule.timezone, Anchor(c))
         case None => None
         case Some(next) => Some(next + Seconds(c.schedule.graceSecs)))
  }

  /** When the run in flight, if there is one, has taken longer than the check allows. */
  function OverrunTime(c: Check): Option<Time> {
    match c.schedule.maxRuntimeSecs
    case None => None
    case Some(max) =>
      if max <= 0 then None
      else
        match c.lastStartAt
        case None => None
        case Some(start) =>
          if c.lastPingAt.Some? && start <= c.lastPingAt.value then None
          else Some(start + Seconds(max))
  }

  predicate Reached(deadline: Option<Time>, now: Time) {
    deadline.Some? && now >= deadline.value
  }

  /** The scanner looks at these only. */
  predicate Active(c: Check) {
    c.status == New || c.status == Up
  }

  /** First positive of check, project and global settings. */
  function EffectiveNag(check: Option<int>, project: Option<int>, global: Option<int>): (interval: Option<int>)
    ensures interval.Some? ==> interval.value > 0 && interval in {check, project, global}
    ensures check.Some? && check.value > 0 ==> interval == check
    ensures !(check.Some? && check.value > 0) && project.Some? && project.value > 0 ==> interval == project
    ensures interval.None? ==> forall v :: v in {check, project, global} && v.Some? ==> v.value <= 0
  {
    if check.Some? && check.value > 0 then check
    else if project.Some? && project.value > 0 then project
    else if global.Some? && global.value > 0 then global
    else None
  }

  // ----- what each request or pass does to one check -----

  datatype Action =
    | Ping(kind: AppliedKind, exitCode: Option<int>)
    | Scan
    | Nag(project: Option<int>, global: Option<int>)
    | Pause
    | Resume
    | Ack
    | Edit(to: Schedule)

  function BeginDownAlert(c: Check, at: Time): Check {
    c.(lastAlertAt := Some(at), acknowledged := false)
  }

  function PingStep(cron: CronClock, c: Check, kind: AppliedKind, exitCode: Option<int>, now: Time): (Check, seq<Event>) {
    if c.status == Paused then (c, [])
    else
      match kind
      case Success =>
        var seen := c.(lastPingAt := Some(now));
        var up := seen.(status := Up, nextDueAt := DueTime(cron, seen));
        if c.status == Down
        then (up.(acknowledged := false, lastAlertAt := None), [Event(c.id, UpEvent, now)])
        else (up, [])
      case Fail =>
        var down := c.(status := Down, lastPingAt := Some(now), nextDueAt := None);
        if c.status == Down then (down, [])
        else (BeginDownAlert(down, now), [Event(c.id, DownEvent(Failed(exitCode)), now)])
      case Start => (c.(lastStartAt := Some(now)), [])
      case Log => (c, [])
  }

  function ScanCause(c: Check, now: Time): DownCause {
    if Reached(OverrunTime(c), now)
    then Overrun(c.schedule.maxRuntimeSecs.value, c.lastStartAt.value)
    else Overdue
  }

  function ScanStep(cron: CronClock, c: Check, now: Time): (Check, seq<Event>) {
    if Active(c) && (Reached(DueTime(cron, c), now) || Reached(OverrunTime(c), now))
    then (BeginDownAlert(c.(status := Down), now), [Event(c.id, DownEvent(ScanCause(c, now)), now)])
    else (c, [])
  }

  predicate NagDue(c: Check, project: Option<int>, global: Option<int>, now: Time) {
    var interval := EffectiveNag(c.schedule.nagIntervalSecs, project, global);
    && c.status == Down && !c.acknowledged && interval.Some?
    && c.lastAlertAt.Some? && now >= c.lastAlertAt.value + Seconds(interval.value)
  }

  function NagStep(c: Check, project: Option<int>, global: Option<int>, now: Time): (Check, seq<Event>) {
    if NagDue(c, project, global, now)
    then (c.(lastAlertAt := Some(now)), [Event(c.id, Reminder, now)])
    else (c, [])
  }

  function Step(cron: CronClock, c: Check, act: Action, now: Time): (Check, seq<Event>) {
    match act
    case Ping(kind, code) => PingStep(cron, c, kind, code, now)
    case Scan => ScanStep(cron, c, now)
    case Nag(project, global) => NagStep(c, project, global, now)
    case Pause => (c.(status := Paused), [])
    case Resume => (c.(status := New), [])
    case Ack => (c.(acknowledged := true), [])
    case Edit(s) => (c.(schedule := s), [])
  }
}
