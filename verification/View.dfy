/** What the pages show for a check, and how far that foretells what the scanner does. */
module View {
  import opened Clock
  import opened Models
  import opened Options
  import opened Checks
  import opened Incidents
  import opened Timestamps

  datatype Shown = ShownNew | ShownUp | ShownRunning | ShownLate | ShownDown | ShownPaused

  /** Absent comes before every instant, and never after itself. */
  predicate Later(a: Option<Time>, b: Option<Time>) {
    match (a, b)
    case (Some(x), Some(y)) => x > y
    case (Some(_), None) => true
    case (None, _) => false
  }

  predicate IsRunning(c: Check) {
    Later(c.lastStartAt, c.lastPingAt)
  }

  function DisplayStatus(c: Check, now: Time): Shown {
    match c.status
    case Down => ShownDown
    case Paused => ShownPaused
    case New => if IsRunning(c) then ShownRunning else ShownNew
    case Up =>
      if IsRunning(c) then ShownRunning
      else if c.nextDueAt.Some?
              && c.nextDueAt.value - Seconds(c.schedule.graceSecs) < now <= c.nextDueAt.value
      then ShownLate
      else ShownUp
  }

  /**
   What is shown, from the row's fields: paused and down first, then an unanswered start, and lateness
   only for a check that is up, within its grace before the stored deadline.
   */
  lemma ShownIs(c: Check, now: Time)
    ensures var running := c.lastStartAt.Some? && (c.lastPingAt.None? || c.lastStartAt.value > c.lastPingAt.value);
            var late := c.nextDueAt.Some? && now <= c.nextDueAt.value
                        && now > c.nextDueAt.value - c.schedule.graceSecs * 1_000_000_000;
            && (DisplayStatus(c, now) == ShownPaused <==> c.status == Paused)
            && (DisplayStatus(c, now) == ShownDown <==> c.status == Down)
            && (DisplayStatus(c, now) == ShownRunning <==> c.status in {New, Up} && running)
            && (DisplayStatus(c, now) == ShownNew <==> c.status == New && !running)
            && (DisplayStatus(c, now) == ShownLate <==> c.status == Up && !running && late)
            && (DisplayStatus(c, now) == ShownUp <==> c.status == Up && !running && !late)
  {
  }

  // ----- the dashboard's count of running checks -----

  /** The calendar fields of an instant. */
  type Calendar = Time -> Stamp

  /** Between `lo` and `hi` the calendar has four-digit years and keeps the order of time. */
  ghost predicate Dates(cal: Calendar, lo: Time, hi: Time) {
    && (forall t :: lo <= t <= hi ==> cal(t).Valid())
    && (forall t, u :: lo <= t <= hi && lo <= u <= hi ==> (t < u <==> cal(t).Before(cal(u))))
  }

  predicate WithinDates(t: Option<Time>, lo: Time, hi: Time) {
    t.Some? ==> lo <= t.value <= hi
  }

  /** The rows the count selects, comparing the two timestamps as the texts they are stored as. */
  predicate CountedRunning(cal: Calendar, c: Check) {
    && (c.status == Up || c.status == New)
    && c.lastStartAt.Some?
    && (c.lastPingAt.None? || Less(Text(cal(c.lastPingAt.value)), Text(cal(c.lastStartAt.value))))
  }

  function Count(cs: seq<Check>, p: Check -> bool): nat {
    if cs == [] then 0 else (if p(cs[0]) then 1 else 0) + Count(cs[1..], p)
  }

  /** The count is the number of checks shown as running, whenever the pages are drawn. */
  lemma {:induction false} RunningCountMatchesPages(cal: Calendar, lo: Time, hi: Time, cs: seq<Check>, now: Time)
    requires Dates(cal, lo, hi)
    requires forall i :: 0 <= i < |cs| ==> WithinDates(cs[i].lastStartAt, lo, hi) && WithinDates(cs[i].lastPingAt, lo, hi)
    ensures Count(cs, c => CountedRunning(cal, c)) == Count(cs, c => DisplayStatus(c, now) == ShownRunning)
  {
    if cs != [] {
      RunningCountMatchesPages(cal, lo, hi, cs[1..], now);
      CountedIsShown(cal, lo, hi, cs[0], now);
    }
  }

  lemma CountedIsShown(cal: Calendar, lo: Time, hi: Time, c: Check, now: Time)
    requires Dates(cal, lo, hi) && WithinDates(c.lastStartAt, lo, hi) && WithinDates(c.lastPingAt, lo, hi)
    ensures CountedRunning(cal, c) <==> DisplayStatus(c, now) == ShownRunning
  {
    if c.lastStartAt.Some? && c.lastPingAt.Some? {
      TextOrderIsTimeOrder(cal(c.lastPingAt.value), cal(c.lastStartAt.value));
    }
  }

  /** A run is shown in flight exactly when it has a deadline, for checks that limit their runs. */
  lemma RunningIffDeadline(c: Check)
    ensures c.schedule.maxRuntimeSecs.Some? && c.schedule.maxRuntimeSecs.value > 0 ==>
              (IsRunning(c) <==> OverrunTime(c).Some?)
    ensures OverrunTime(c).Some? ==> IsRunning(c)
  {
  }

  // ----- from a success to the alert -----

  /** Steps that neither ping the check forward nor operate it: logs, scans, nags, acknowledgements. */
  predicate Passive(act: Action) {
    act.Scan? || act.Nag? || act.Ack? || (act.Ping? && act.kind == Log)
  }

  ghost predicate AllPassive(acts: seq<Timed>) {
    forall i :: 0 <= i < |acts| ==> Passive(acts[i].act)
  }

  /** A scan came at or past the deadline. */
  ghost predicate Caught(acts: seq<Timed>, due: Option<Time>) {
    exists i :: 0 <= i < |acts| && acts[i].act.Scan? && Reached(due, acts[i].at)
  }

  predicate ShownInGrace(due: Option<Time>, grace: int, now: Time) {
    due.Some? && due.value - Seconds(grace) < now <= due.value
  }

  lemma CaughtSoFar(acts: seq<Timed>, due: Option<Time>)
    requires acts != []
    ensures var n := |acts| - 1;
            Caught(acts, due) <==> Caught(acts[..n], due) || (acts[n].act.Scan? && Reached(due, acts[n].at))
  {
  }

  lemma PassiveStep(cron: CronClock, c: Check, act: Action, now: Time)
    requires Passive(act) && (c.status == Up || c.status == Down) && !IsRunning(c)
    ensures var (s, es) := Step(cron, c, act, now);
            var caught := c.status == Up && act.Scan? && Reached(DueTime(cron, c), now);
            && s.status == (if caught then Down else c.status)
            && (s.status == Up ==> es == [] && s == c.(acknowledged := s.acknowledged))
            && |es| <= 1
            && (es != [] ==> es[0].kind.DownEvent? == caught && !es[0].kind.UpEvent?)
            && (caught ==> es != [])
  {
  }

  /** The row of an idle check after a passive stretch. */
  ghost predicate Idled(c: Check, s: Check, t: seq<Event>, caught: bool) {
    && s.status == (if caught then Down else Up)
    && (caught || (s == c.(acknowledged := s.acknowledged) && t == []))
    && s.lastStartAt == c.lastStartAt && s.lastPingAt == c.lastPingAt
    && Downs(t) == (if caught then 1 else 0) && Ups(t) == 0
  }

  lemma IdleStep(cron: CronClock, c: Check, s: Check, t: seq<Event>, caught: bool, act: Action, now: Time)
    requires c.status == Up && !IsRunning(c) && Idled(c, s, t, caught) && Passive(act)
    ensures var (next, es) := Step(cron, s, act, now);
            Idled(c, next, t + es, caught || (act.Scan? && Reached(DueTime(cron, c), now)))
  {
    PassiveStep(cron, s, act, now);
    CountStep(t, Step(cron, s, act, now).1);
    PassiveKeepsTimes(cron, s, act, now);
  }

  /** An idle check stays as it is, acknowledgement aside, until a scan catches it. */
  lemma {:induction false} IdleUntilCaught(cron: CronClock, c: Check, acts: seq<Timed>)
    requires c.status == Up && !IsRunning(c) && AllPassive(acts)
    ensures Idled(c, State(cron, c, acts), Trace(cron, c, acts), Caught(acts, DueTime(cron, c)))
    decreases |acts|
  {
    if acts != [] {
      var n := |acts| - 1;
      var s, t := State(cron, c, acts[..n]), Trace(cron, c, acts[..n]);
      IdleUntilCaught(cron, c, acts[..n]);
      CaughtSoFar(acts, DueTime(cron, c));
      assert Passive(acts[n].act);
      IdleStep(cron, c, s, t, Caught(acts[..n], DueTime(cron, c)), acts[n].act, acts[n].at);
    }
  }

  lemma PassiveKeepsTimes(cron: CronClock, c: Check, act: Action, now: Time)
    requires Passive(act)
    ensures var s := Step(cron, c, act, now).0;
            s.lastStartAt == c.lastStartAt && s.lastPingAt == c.lastPingAt
  {
  }

  /**
   After a success, through any mix of logs, scans, nags and acknowledgements: until a scan comes
   at or past the deadline the check is shown up, or late through its grace, and nothing is
   emitted; that scan raises the one Down of the stretch, and the check is shown down from then
   on. Past the deadline an unscanned check is shown up again, not late.
   */
  lemma LifeAfterSuccess(cron: CronClock, c: Check, code: Option<int>, pinged: Time, acts: seq<Timed>, now: Time)
    requires c.status != Paused
    requires c.lastStartAt.Some? ==> c.lastStartAt.value <= pinged
    requires AllPassive(acts)
    ensures var s := PingStep(cron, c, Success, code, pinged).0;
            var due := DueTime(cron, s);
            var t := Trace(cron, s, acts);
            var shown := DisplayStatus(State(cron, s, acts), now);
            if Caught(acts, due) then shown == ShownDown && Downs(t) == 1 && Ups(t) == 0
            else shown == (if ShownInGrace(due, s.schedule.graceSecs, now) then ShownLate else ShownUp) && t == []
  {
    var s := PingStep(cron, c, Success, code, pinged).0;
    IdleUntilCaught(cron, s, acts);
  }

  /**
   A run started after the last success hides lateness but not the alert: it is shown running
   until a scan finds the check overdue or the run over its limit, and down from then on.
   */
  lemma RunHidesOnlyLateness(cron: CronClock, c: Check, code: Option<int>, pinged: Time, start: Time, now: Time)
    requires c.status != Paused && pinged < start <= now
    ensures var s := PingStep(cron, PingStep(cron, c, Success, code, pinged).0, Start, None, start).0;
            var limit := c.schedule.maxRuntimeSecs;
            var after := ScanStep(cron, s, now).0;
            && DisplayStatus(s, now) == ShownRunning
            && DisplayStatus(after, now) in {ShownRunning, ShownDown}
            && (DisplayStatus(after, now) == ShownDown <==>
                  || Reached(DueTime(cron, s), now)
                  || (limit.Some? && limit.value > 0 && now >= start + Seconds(limit.value)))
  {
  }
}
