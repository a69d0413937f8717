/**
 What a check's row is, told from the steps it has taken, and when a scan alerts, told from the row's
 fields: the deadlines in plain arithmetic.
 */
module CheckHistory {
  import opened Clock
  import opened Models
  import opened Options
  import opened Checks
  import opened Incidents

  // ----- the row, told from the run -----

  /** The latest of the pauses and resumes is a pause. */
  ghost predicate Halted(acts: seq<Timed>) {
    acts != [] &&
    match acts[|acts| - 1].act
    case Pause => true
    case Resume => false
    case _ => Halted(acts[..|acts| - 1])
  }

  /** When the latest success or failure came that was not sent to a paused check. */
  ghost function LatestFinish(acts: seq<Timed>): Option<Time> {
    if acts == [] then None
    else
      var n := |acts| - 1;
      if acts[n].act.Ping? && acts[n].act.kind in {Success, Fail} && !Halted(acts[..n])
      then Some(acts[n].at)
      else LatestFinish(acts[..n])
  }

  /** The same for starts. */
  ghost function LatestStart(acts: seq<Timed>): Option<Time> {
    if acts == [] then None
    else
      var n := |acts| - 1;
      if acts[n].act.Ping? && acts[n].act.kind == Start && !Halted(acts[..n])
      then Some(acts[n].at)
      else LatestStart(acts[..n])
  }

  /** The schedule of the latest edit, else the one the check was created with. */
  ghost function LatestSchedule(c: Check, acts: seq<Timed>): Schedule {
    if acts == [] then c.schedule
    else
      match acts[|acts| - 1].act
      case Edit(s) => s
      case _ => LatestSchedule(c, acts[..|acts| - 1])
  }

  /**
   What the latest step that decided it makes of the status: a pause or resume, a success or failure
   sent to an unpaused check, or a scan that alerted.
   */
  ghost function LatestStatus(cron: CronClock, c: Check, acts: seq<Timed>): Status {
    if acts == [] then New
    else
      var n := |acts| - 1;
      var before := LatestStatus(cron, c, acts[..n]);
      match acts[n].act
      case Pause => Paused
      case Resume => New
      case Ping(kind, _) =>
        if Halted(acts[..n]) then before
        else if kind == Success then Up
        else if kind == Fail then Down
        else before
      case Scan =>
        if Trace(cron, c, acts) != Trace(cron, c, acts[..n]) then Down else before
      case _ => before
  }

  ghost predicate IsHistory(cron: CronClock, c: Check, acts: seq<Timed>, s: Check) {
    && s.id == c.id && s.projectId == c.projectId && s.createdAt == c.createdAt
    && s.schedule == LatestSchedule(c, acts)
    && s.lastPingAt == LatestFinish(acts)
    && s.lastStartAt == LatestStart(acts)
    && s.status == LatestStatus(cron, c, acts)
    && (s.status == Paused <==> Halted(acts))
  }

  lemma HistoryStep(cron: CronClock, c: Check, acts: seq<Timed>, act: Action, at: Time)
    requires IsHistory(cron, c, acts, State(cron, c, acts))
    ensures var more := acts + [Timed(act, at)];
            IsHistory(cron, c, more, State(cron, c, more))
  {
    var more := acts + [Timed(act, at)];
    assert more[..|acts|] == acts;
    var s, t := State(cron, c, acts), Trace(cron, c, acts);
    var es := Step(cron, s, act, at).1;
    assert Trace(cron, c, more) == t + es;
    if es == [] {
      assert t + es == t;
    } else {
      assert |t + es| > |t|;
    }
  }

  /** Every field of a reachable row but its deadline and alert state is told by its run. */
  lemma {:induction false} RowIsHistory(cron: CronClock, c: Check, acts: seq<Timed>)
    requires Fresh(c)
    ensures IsHistory(cron, c, acts, State(cron, c, acts))
  {
    if acts != [] {
      var n := |acts| - 1;
      RowIsHistory(cron, c, acts[..n]);
      assert acts[..n] + [Timed(acts[n].act, acts[n].at)] == acts;
      HistoryStep(cron, c, acts[..n], acts[n].act, acts[n].at);
    }
  }

  // ----- when a check is due -----

  /** `now` has reached the latest finish, or the creation, plus period and grace; for cron, its next firing plus grace. */
  predicate IsOverdue(cron: CronClock, s: Schedule, finish: Option<Time>, createdAt: Time, now: Time) {
    var since := match finish case Some(t) => t case None => createdAt;
    match s.kind
    case Period =>
      s.periodSecs.Some? && now - since >= (s.periodSecs.value + s.graceSecs) * 1_000_000_000
    case Cron =>
      s.cronExpr.Some?
      && (match cron(s.cronExpr.value, s.timezone, since)
          case None => false
          case Some(fires) => now - fires >= s.graceSecs * 1_000_000_000)
  }

  /** The latest start has not been answered, and the limit on runs has passed since. */
  predicate IsOverrun(s: Schedule, start: Option<Time>, finish: Option<Time>, now: Time) {
    && s.maxRuntimeSecs.Some? && s.maxRuntimeSecs.value > 0
    && start.Some? && (finish.None? || start.value > finish.value)
    && now - start.value >= s.maxRuntimeSecs.value * 1_000_000_000
  }

  /** The alert a scan raises on a row, if any. */
  function Alarm(cron: CronClock, c: Check, now: Time): seq<Event> {
    if c.status != New && c.status != Up then []
    else if IsOverrun(c.schedule, c.lastStartAt, c.lastPingAt, now)
    then [Event(c.id, DownEvent(Overrun(c.schedule.maxRuntimeSecs.value, c.lastStartAt.value)), now)]
    else if IsOverdue(cron, c.schedule, c.lastPingAt, c.createdAt, now)
    then [Event(c.id, DownEvent(Overdue), now)]
    else []
  }

  /**
   A scan alerts exactly on the new and up checks that are overdue or overrun, names the overrun first,
   and then changes the status, the alert baseline and the acknowledgement only.
   */
  lemma ScanAlarms(cron: CronClock, c: Check, now: Time)
    ensures var (s, es) := Step(cron, c, Scan, now);
            && es == Alarm(cron, c, now)
            && s == if es == [] then c else c.(status := Down, lastAlertAt := Some(now), acknowledged := false)
  {
  }

  /**
   The same of a run alone: after any run of a check, a scan alerts exactly when the check is new or up
   and its latest finish, or its creation, is period and grace ago, or its unanswered start the limit.
   */
  lemma ScanAlarmsRun(cron: CronClock, c: Check, acts: seq<Timed>, now: Time)
    requires Fresh(c)
    ensures var es := Step(cron, State(cron, c, acts), Scan, now).1;
            var schedule, start, finish := LatestSchedule(c, acts), LatestStart(acts), LatestFinish(acts);
            var watched := LatestStatus(cron, c, acts) in {New, Up};
            var overrun := IsOverrun(schedule, start, finish, now);
            && (es == [] <==> !(watched && (overrun || IsOverdue(cron, schedule, finish, c.createdAt, now))))
            && (es != [] ==> es == [Event(c.id, DownEvent(
                                     if overrun then Overrun(schedule.maxRuntimeSecs.value, start.value) else Overdue), now)])
  {
    RowIsHistory(cron, c, acts);
    ScanAlarms(cron, State(cron, c, acts), now);
  }

  /** A check never pinged is left alone until period and grace have passed since its creation. */
  lemma NewCheckHasTime(cron: CronClock, c: Check, now: Time)
    requires Fresh(c) && c.schedule.kind == Period && c.schedule.periodSecs.Some?
    ensures Step(cron, c, Scan, now).1 == []
       <==> now < c.createdAt + (c.schedule.periodSecs.value + c.schedule.graceSecs) * 1_000_000_000
  {
    ScanAlarmsRun(cron, c, [], now);
  }

  // ----- what the other steps do -----

  /** The deadline a success stores is the first instant at which the row would be overdue. */
  lemma SuccessStoresDeadline(cron: CronClock, c: Check, code: Option<int>, now: Time, later: Time)
    requires c.status != Paused
    ensures var s := Step(cron, c, Ping(Success, code), now).0;
            && s.status == Up && s.lastPingAt == Some(now)
            && (IsOverdue(cron, s.schedule, s.lastPingAt, s.createdAt, later) <==>
                  s.nextDueAt.Some? && later >= s.nextDueAt.value)
  {
  }

  /**
   The row after a ping, field by field: a paused check keeps them all, only finishes touch status,
   deadline and alert state, a start is only noted, a log not even that.
   */
  lemma PingEffects(cron: CronClock, c: Check, kind: AppliedKind, code: Option<int>, now: Time)
    ensures var (s, es) := Step(cron, c, Ping(kind, code), now);
            var moved := c.status != Paused && kind in {Success, Fail};
            && s == c.(status := s.status, lastPingAt := s.lastPingAt, lastStartAt := s.lastStartAt,
                       nextDueAt := s.nextDueAt, lastAlertAt := s.lastAlertAt, acknowledged := s.acknowledged)
            && s.lastPingAt == (if moved then Some(now) else c.lastPingAt)
            && s.lastStartAt == (if c.status != Paused && kind == Start then Some(now) else c.lastStartAt)
            && s.status == (if !moved then c.status else if kind == Success then Up else Down)
            && (!moved ==> s.nextDueAt == c.nextDueAt) && (moved && kind == Fail ==> s.nextDueAt == None)
            && (s.lastAlertAt, s.acknowledged) ==
                 (if moved && kind == Success && c.status == Down then (None, false)
                  else if moved && kind == Fail && c.status != Down then (Some(now), false)
                  else (c.lastAlertAt, c.acknowledged))
            && es == if moved && kind == Success && c.status == Down then [Event(c.id, UpEvent, now)]
                     else if moved && kind == Fail && c.status != Down then [Event(c.id, DownEvent(Failed(code)), now)]
                     else []
  {
  }

  /** The first of the check's, its project's and the global interval that is positive. */
  ghost predicate IntervalIs(check: Option<int>, project: Option<int>, global: Option<int>, n: int) {
    && n > 0
    && (check == Some(n)
        || ((check.None? || check.value <= 0)
            && (project == Some(n)
                || ((project.None? || project.value <= 0) && global == Some(n)))))
  }

  /** A nag reminds exactly when such an interval has passed since the baseline, and then moves only the baseline. */
  lemma NagReminds(cron: CronClock, c: Check, project: Option<int>, global: Option<int>, now: Time)
    ensures var (s, es) := Step(cron, c, Nag(project, global), now);
            && (es == [Event(c.id, Reminder, now)] <==>
                  && c.status == Down && !c.acknowledged && c.lastAlertAt.Some?
                  && exists n :: IntervalIs(c.schedule.nagIntervalSecs, project, global, n)
                                 && now - c.lastAlertAt.value >= n * 1_000_000_000)
            && s == (if es == [] then c else c.(lastAlertAt := Some(now)))
            && (es != [] ==> es == [Event(c.id, Reminder, now)])
  {
    var e := EffectiveNag(c.schedule.nagIntervalSecs, project, global);
    IntervalIsEffective(c.schedule.nagIntervalSecs, project, global);
    if e.Some? {
      assert IntervalIs(c.schedule.nagIntervalSecs, project, global, e.value);
    }
  }

  lemma IntervalIsEffective(check: Option<int>, project: Option<int>, global: Option<int>)
    ensures forall n :: IntervalIs(check, project, global, n) <==> EffectiveNag(check, project, global) == Some(n)
  {
  }

  /** The operator's steps emit nothing and change one field each. */
  lemma OperatorEffects(cron: CronClock, c: Check, to: Schedule, now: Time)
    ensures Step(cron, c, Pause, now) == (c.(status := Paused), [])
    ensures Step(cron, c, Resume, now) == (c.(status := New), [])
    ensures Step(cron, c, Ack, now) == (c.(acknowledged := true), [])
    ensures Step(cron, c, Edit(to), now) == (c.(schedule := to), [])
  {
  }
}
