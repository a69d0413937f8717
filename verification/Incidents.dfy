/** Whole-run properties of one check's incidents. */
module Incidents {
  import opened Clock
  import opened Models
  import opened Options
  import opened Checks

  datatype Timed = Timed(act: Action, at: Time)

  /** A check as `create_check` inserts it. */
  ghost predicate Fresh(c: Check) {
    && c.status == New
    && c.lastPingAt == None && c.lastStartAt == None && c.nextDueAt == None
    && c.lastAlertAt == None && !c.acknowledged
  }

  /** The row after the steps `acts`. */
  ghost function State(cron: CronClock, c: Check, acts: seq<Timed>): Check {
    if acts == [] then c
    else
      var n := |acts| - 1;
      Step(cron, State(cron, c, acts[..n]), acts[n].act, acts[n].at).0
  }

  /** Every event the steps emitted, in order. */
  ghost function Trace(cron: CronClock, c: Check, acts: seq<Timed>): seq<Event> {
    if acts == [] then []
    else
      var n := |acts| - 1;
      Trace(cron, c, acts[..n]) + Step(cron, State(cron, c, acts[..n]), acts[n].act, acts[n].at).1
  }

  ghost predicate Clocked(c: Check, acts: seq<Timed>) {
    && (forall i :: 0 <= i < |acts| ==> c.createdAt <= acts[i].at)
    && (forall i, j :: 0 <= i < j < |acts| ==> acts[i].at <= acts[j].at)
  }

  // ----- the ledger -----

  ghost function Downs(t: seq<Event>): nat {
    if t == [] then 0 else Downs(t[..|t| - 1]) + if t[|t| - 1].kind.DownEvent? then 1 else 0
  }

  ghost function Ups(t: seq<Event>): nat {
    if t == [] then 0 else Ups(t[..|t| - 1]) + if t[|t| - 1].kind.UpEvent? then 1 else 0
  }

  /** Pause and resume actions taken while the check was down: each ends an incident silently. */
  ghost function Abandoned(cron: CronClock, c: Check, acts: seq<Timed>): nat {
    if acts == [] then 0
    else
      var n := |acts| - 1;
      Abandoned(cron, c, acts[..n])
      + if State(cron, c, acts[..n]).status == Down && (acts[n].act.Pause? || acts[n].act.Resume?) then 1 else 0
  }

  lemma AppendOne(t: seq<Event>, e: Event)
    ensures Downs(t + [e]) == Downs(t) + if e.kind.DownEvent? then 1 else 0
    ensures Ups(t + [e]) == Ups(t) + if e.kind.UpEvent? then 1 else 0
  {
  }

  /** No step emits more than one event. */
  lemma AtMostOneEvent(cron: CronClock, c: Check, act: Action, now: Time)
    ensures |Step(cron, c, act, now).1| <= 1
  {
  }

  /** Downs and Ups of a trace with one more step's events. */
  lemma CountStep(t: seq<Event>, es: seq<Event>)
    requires |es| <= 1
    ensures Downs(t + es) == Downs(t) + if es != [] && es[0].kind.DownEvent? then 1 else 0
    ensures Ups(t + es) == Ups(t) + if es != [] && es[0].kind.UpEvent? then 1 else 0
  {
    if es == [] {
      assert t + es == t;
    } else {
      AppendOne(t, es[0]);
      assert t + es == t + [es[0]];
    }
  }

  /** Which event a step emits is told by the status before and after. */
  lemma EventsByStatus(cron: CronClock, c: Check, act: Action, now: Time)
    ensures var (s, es) := Step(cron, c, act, now);
            && |es| <= 1
            && (es != [] && es[0].kind.DownEvent? <==> c.status != Down && s.status == Down)
            && (es != [] && es[0].kind.UpEvent? <==> c.status == Down && s.status != Down && !act.Pause? && !act.Resume?)
            && (act.Pause? || act.Resume? ==> s.status != Down)
  {
  }

  /** One step of the ledger. */
  lemma LedgerStep(cron: CronClock, c: Check, act: Action, now: Time, t: seq<Event>)
    ensures var (s, es) := Step(cron, c, act, now);
            Downs(t + es) - Downs(t) + (if c.status == Down then 1 else 0)
            == Ups(t + es) - Ups(t) + (if c.status == Down && (act.Pause? || act.Resume?) then 1 else 0)
               + (if s.status == Down then 1 else 0)
  {
    EventsByStatus(cron, c, act, now);
    CountStep(t, Step(cron, c, act, now).1);
  }

  lemma {:induction false} Ledger(cron: CronClock, c: Check, acts: seq<Timed>)
    requires Fresh(c)
    ensures Downs(Trace(cron, c, acts))
         == Ups(Trace(cron, c, acts)) + Abandoned(cron, c, acts)
            + if State(cron, c, acts).status == Down then 1 else 0
  {
    if acts != [] {
      var n := |acts| - 1;
      Ledger(cron, c, acts[..n]);
      LedgerStep(cron, State(cron, c, acts[..n]), acts[n].act, acts[n].at, Trace(cron, c, acts[..n]));
    }
  }

  // ----- shape of the trace, and the alert baseline -----

  /** An Up or a Reminder directly follows the Down or Reminder of the incident it belongs to. */
  ghost predicate WellFormed(t: seq<Event>) {
    forall i :: 0 <= i < |t| && !t[i].kind.DownEvent? ==> i > 0 && !t[i - 1].kind.UpEvent?
  }

  /** What holds of a reachable row and the trace that led to it. */
  ghost predicate Inv(c: Check, t: seq<Event>) {
    && WellFormed(t)
    && (forall i :: 0 <= i < |t| ==> t[i].checkId == c.id)
    && (c.status == Down ==>
          && t != [] && !t[|t| - 1].kind.UpEvent?
          && c.lastAlertAt == Some(t[|t| - 1].at))
  }

  lemma InvStep(cron: CronClock, c: Check, t: seq<Event>, act: Action, now: Time)
    requires Inv(c, t)
    ensures var (s, es) := Step(cron, c, act, now); Inv(s, t + es) && s.id == c.id
  {
  }

  lemma {:induction false} BaselineIsLatestAlert(cron: CronClock, c: Check, acts: seq<Timed>)
    requires Fresh(c)
    ensures Inv(State(cron, c, acts), Trace(cron, c, acts))
    ensures State(cron, c, acts).id == c.id
  {
    if acts != [] {
      var n := |acts| - 1;
      BaselineIsLatestAlert(cron, c, acts[..n]);
      InvStep(cron, State(cron, c, acts[..n]), Trace(cron, c, acts[..n]), acts[n].act, acts[n].at);
    }
  }

  /**
   Each Up has a Down of its own before it: only reminders of the same incident lie between
   the two, so no other Up can claim that Down.
   */
  lemma {:induction false} EachUpClosesItsDown(t: seq<Event>, i: nat) returns (d: nat)
    requires WellFormed(t) && i < |t| && !t[i].kind.DownEvent?
    ensures d < i && t[d].kind.DownEvent?
    ensures forall j :: d < j < i ==> t[j].kind.Reminder?
  {
    d := i - 1;
    if !t[d].kind.DownEvent? {
      d := EachUpClosesItsDown(t, i - 1);
    }
  }

  // ----- reminders -----

  /** Whenever a nag pass reaches the check with reminders on, the interval is at least `n`. */
  ghost predicate NagsAtLeast(cron: CronClock, c: Check, acts: seq<Timed>, n: int) {
    forall i :: 0 <= i < |acts| && acts[i].act.Nag? ==>
      var e := EffectiveNag(State(cron, c, acts[..i]).schedule.nagIntervalSecs, acts[i].act.project, acts[i].act.global);
      e.Some? ==> e.value >= n
  }

  /** Neighbouring alerts of an incident are at least `n` seconds apart. */
  ghost predicate Spaced(t: seq<Event>, n: int) {
    forall i :: 0 < i < |t| && t[i].kind.Reminder? ==> t[i].at >= t[i - 1].at + Seconds(n)
  }

  lemma {:induction false} RemindersSpaced(cron: CronClock, c: Check, acts: seq<Timed>, n: int)
    requires Fresh(c) && NagsAtLeast(cron, c, acts, n)
    ensures Spaced(Trace(cron, c, acts), n)
  {
    if acts != [] {
      var m := |acts| - 1;
      forall i | 0 <= i < m ensures acts[..m][..i] == acts[..i] {
      }
      assert NagsAtLeast(cron, c, acts[..m], n);
      RemindersSpaced(cron, c, acts[..m], n);
      BaselineIsLatestAlert(cron, c, acts[..m]);
      assert acts[..m][..m] == acts[..m];
    }
  }

  /** Reminders `d + 1 .. r` of the incident opened by the Down at `d` take `n` seconds each. */
  lemma {:induction false} ReminderBudget(t: seq<Event>, d: nat, r: nat, n: nat)
    requires Spaced(t, n) && d <= r < |t| && t[d].kind.DownEvent?
    requires forall j :: d < j <= r ==> t[j].kind.Reminder?
    ensures (r - d) * Seconds(n) <= t[r].at - t[d].at
    decreases r
  {
    if d < r {
      ReminderBudget(t, d, r - 1, n);
      assert t[r].at >= t[r - 1].at + Seconds(n);
      var k := r - 1 - d;
      assert (k + 1) * Seconds(n) == k * Seconds(n) + Seconds(n);
    }
  }

  lemma {:induction false} EventsInPast(cron: CronClock, c: Check, acts: seq<Timed>)
    requires Clocked(c, acts)
    ensures forall e :: e in Trace(cron, c, acts) ==> acts != [] && e.at <= acts[|acts| - 1].at
  {
    if acts != [] {
      var m := |acts| - 1;
      assert Clocked(c, acts[..m]);
      EventsInPast(cron, c, acts[..m]);
    }
  }

  /**
   With reminders at least `n` seconds apart, an incident that has been open for `T` seconds
   has raised at most `T / n` of them.
   */
  lemma RemindersPerIncident(cron: CronClock, c: Check, acts: seq<Timed>, n: nat, d: nat)
    requires Fresh(c) && Clocked(c, acts) && NagsAtLeast(cron, c, acts, n) && n > 0 && acts != []
    requires var t := Trace(cron, c, acts);
             && d < |t| && t[d].kind.DownEvent?
             && forall j :: d < j < |t| ==> t[j].kind.Reminder?
    ensures var t := Trace(cron, c, acts);
            (|t| - 1 - d) * Seconds(n) <= acts[|acts| - 1].at - t[d].at
  {
    var t := Trace(cron, c, acts);
    RemindersSpaced(cron, c, acts, n);
    EventsInPast(cron, c, acts);
    ReminderBudget(t, d, |t| - 1, n);
    assert t[|t| - 1] in t;
  }

  /**
   A nag pass reminds exactly when the check is down and unacknowledged, reminders are on, and
   the interval has passed since the latest event of its trace: in a reachable state a down
   check never lacks a baseline.
   */
  lemma NagExactly(cron: CronClock, c: Check, acts: seq<Timed>, project: Option<int>, global: Option<int>, now: Time)
    requires Fresh(c)
    ensures var s, t := State(cron, c, acts), Trace(cron, c, acts);
            var interval := EffectiveNag(s.schedule.nagIntervalSecs, project, global);
            NagStep(s, project, global, now).1 == [Event(c.id, Reminder, now)] <==>
              && s.status == Down && !s.acknowledged && interval.Some?
              && t != [] && now >= t[|t| - 1].at + Seconds(interval.value)
  {
    BaselineIsLatestAlert(cron, c, acts);
  }

  // ----- acknowledgement -----

  /** A step that raises a Down leaves the check unacknowledged, whatever was pressed before. */
  lemma IncidentStartsUnacknowledged(cron: CronClock, c: Check, act: Action, now: Time)
    requires exists e :: e in Step(cron, c, act, now).1 && e.kind.DownEvent?
    ensures var s := Step(cron, c, act, now).0;
            s.status == Down && !s.acknowledged && s.lastAlertAt == Some(now)
  {
  }

  ghost predicate Silenced(c: Check) {
    c.status == Down ==> c.acknowledged
  }

  /** Events emitted after the first `k` steps. */
  ghost function Since(cron: CronClock, c: Check, acts: seq<Timed>, k: nat): seq<Event>
    requires k <= |acts|
    decreases |acts|
  {
    if |acts| == k then []
    else
      var n := |acts| - 1;
      Since(cron, c, acts[..n], k) + Step(cron, State(cron, c, acts[..n]), acts[n].act, acts[n].at).1
  }

  lemma EventsAssoc(a: seq<Event>, b: seq<Event>, c: seq<Event>)
    ensures a + b + c == a + (b + c)
  {
  }

  lemma {:induction false} TraceSplits(cron: CronClock, c: Check, acts: seq<Timed>, k: nat)
    requires k <= |acts|
    ensures Trace(cron, c, acts) == Trace(cron, c, acts[..k]) + Since(cron, c, acts, k)
    decreases |acts|
  {
    if |acts| == k {
      assert acts[..k] == acts;
    } else {
      var n := |acts| - 1;
      var es := Step(cron, State(cron, c, acts[..n]), acts[n].act, acts[n].at).1;
      TraceSplits(cron, c, acts[..n], k);
      assert acts[..n][..k] == acts[..k];
      EventsAssoc(Trace(cron, c, acts[..k]), Since(cron, c, acts[..n], k), es);
    }
  }

  ghost predicate HasDown(es: seq<Event>) {
    exists d :: 0 <= d < |es| && es[d].kind.DownEvent?
  }

  ghost predicate NoReminder(es: seq<Event>) {
    forall r :: 0 <= r < |es| ==> !es[r].kind.Reminder?
  }

  lemma SilencedStep(cron: CronClock, c: Check, act: Action, now: Time)
    requires Silenced(c)
    ensures var (s, es) := Step(cron, c, act, now);
            HasDown(es) || (Silenced(s) && NoReminder(es))
  {
    var (s, es) := Step(cron, c, act, now);
    if es != [] && es[0].kind.DownEvent? {
      assert HasDown(es);
    }
  }

  lemma HasDownConcat(a: seq<Event>, b: seq<Event>)
    ensures HasDown(a) || HasDown(b) ==> HasDown(a + b)
    ensures NoReminder(a) && NoReminder(b) ==> NoReminder(a + b)
  {
    if d :| 0 <= d < |b| && b[d].kind.DownEvent? {
      assert (a + b)[|a| + d] == b[d];
    }
    if d :| 0 <= d < |a| && a[d].kind.DownEvent? {
      assert (a + b)[d] == a[d];
    }
  }

  /** From an acknowledge until the next Down, no reminders. */
  lemma {:induction false} QuietUntilDown(cron: CronClock, c: Check, acts: seq<Timed>, k: nat)
    requires 0 < k <= |acts| && acts[k - 1].act.Ack?
    ensures HasDown(Since(cron, c, acts, k))
         || (Silenced(State(cron, c, acts)) && NoReminder(Since(cron, c, acts, k)))
    decreases |acts|
  {
    if |acts| > k {
      var n := |acts| - 1;
      var s := State(cron, c, acts[..n]);
      QuietUntilDown(cron, c, acts[..n], k);
      HasDownConcat(Since(cron, c, acts[..n], k), Step(cron, s, acts[n].act, acts[n].at).1);
      if Silenced(s) {
        SilencedStep(cron, s, acts[n].act, acts[n].at);
      }
    }
  }

  lemma Front(a: seq<Event>, b: seq<Event>, r: nat)
    requires r <= |a|
    ensures (a + b)[..r] == a[..r] && a[..|a|] == a
    ensures r < |a| && r < |a + b| ==> (a + b)[r] == a[r]
  {
  }

  /**
   After an acknowledge, through any mix of pings, scans, nags, pauses, resumes and edits, every
   Reminder comes after a new Down.
   */
  lemma {:induction false} AckSilencesTheIncident(cron: CronClock, c: Check, acts: seq<Timed>, k: nat, r: nat)
    requires 0 < k <= |acts| && acts[k - 1].act.Ack?
    requires r < |Since(cron, c, acts, k)| && Since(cron, c, acts, k)[r].kind.Reminder?
    ensures HasDown(Since(cron, c, acts, k)[..r])
    decreases |acts|
  {
    var n := |acts| - 1;
    var s, before := State(cron, c, acts[..n]), Since(cron, c, acts[..n], k);
    Front(before, Step(cron, s, acts[n].act, acts[n].at).1, r);
    if r < |before| {
      AckSilencesTheIncident(cron, c, acts[..n], k, r);
    } else {
      QuietUntilDown(cron, c, acts[..n], k);
      AtMostOneEvent(cron, s, acts[n].act, acts[n].at);
      if Silenced(s) {
        SilencedStep(cron, s, acts[n].act, acts[n].at);
      }
    }
  }

  // ----- pausing -----

  /** While nobody resumes it, a paused check stays paused and emits nothing. */
  lemma {:induction false} PausedIsSilent(cron: CronClock, c: Check, acts: seq<Timed>, k: nat)
    requires 0 < k <= |acts| && acts[k - 1].act.Pause?
    requires forall i :: k <= i < |acts| ==> !acts[i].act.Resume?
    ensures State(cron, c, acts).status == Paused && Since(cron, c, acts, k) == []
    decreases |acts|
  {
    if |acts| > k {
      PausedIsSilent(cron, c, acts[..|acts| - 1], k);
    }
  }

  // ----- the stored deadline -----

  ghost predicate DueInSync(cron: CronClock, c: Check) {
    c.status == Up ==> c.nextDueAt == DueTime(cron, c)
  }

  lemma DueInSyncStep(cron: CronClock, c: Check, act: Action, now: Time)
    requires DueInSync(cron, c) && !act.Edit?
    ensures DueInSync(cron, Step(cron, c, act, now).0)
  {
  }

  /**
   In a run that edits no schedule, the `nextDueAt` stored by the last success of an Up check is
   still what recomputing it gives.
   */
  lemma {:induction false} StoredDueIsCurrent(cron: CronClock, c: Check, acts: seq<Timed>)
    requires DueInSync(cron, c)
    requires forall i :: 0 <= i < |acts| ==> !acts[i].act.Edit?
    ensures DueInSync(cron, State(cron, c, acts))
  {
    if acts != [] {
      var n := |acts| - 1;
      StoredDueIsCurrent(cron, c, acts[..n]);
      DueInSyncStep(cron, State(cron, c, acts[..n]), acts[n].act, acts[n].at);
    }
  }

  /**
   An edit leaves the stored deadline alone, so it keeps the two in step exactly when the new
   schedule happens to give the old deadline.
   */
  lemma EditKeepsDueIff(cron: CronClock, c: Check, s: Schedule, now: Time)
    requires DueInSync(cron, c) && c.status == Up
    ensures DueInSync(cron, Step(cron, c, Edit(s), now).0)
       <==> DueTime(cron, c.(schedule := s)) == DueTime(cron, c)
  {
  }

  /** For a check that keeps a period schedule: exactly when period and grace add up to the same. */
  lemma PeriodEditKeepsDueIff(cron: CronClock, c: Check, s: Schedule, now: Time)
    requires DueInSync(cron, c) && c.status == Up
    requires c.schedule.kind == Period && s.kind == Period
    requires c.schedule.periodSecs.Some? && s.periodSecs.Some?
    ensures DueInSync(cron, Step(cron, c, Edit(s), now).0)
       <==> s.periodSecs.value + s.graceSecs == c.schedule.periodSecs.value + c.schedule.graceSecs
  {
  }

  /** For a check that keeps its cron expression and zone: exactly when the grace is unchanged. */
  lemma CronEditKeepsDueIff(cron: CronClock, c: Check, s: Schedule, now: Time)
    requires DueInSync(cron, c) && c.status == Up
    requires c.schedule.kind == Cron && s.kind == Cron && c.schedule.cronExpr.Some?
    requires s.cronExpr == c.schedule.cronExpr && s.timezone == c.schedule.timezone
    requires cron(s.cronExpr.value, s.timezone, Anchor(c)).Some?
    ensures DueInSync(cron, Step(cron, c, Edit(s), now).0) <==> s.graceSecs == c.schedule.graceSecs
  {
  }

  /** The schedule in force at the latest success; at the start, the check's own. */
  ghost function Basis(cron: CronClock, c: Check, acts: seq<Timed>): Schedule {
    if acts == [] then c.schedule
    else
      var n := |acts| - 1;
      var before := State(cron, c, acts[..n]);
      if acts[n].act.Ping? && acts[n].act.kind == Success && before.status != Paused
      then before.schedule
      else Basis(cron, c, acts[..n])
  }

  ghost predicate DueSince(cron: CronClock, c: Check, basis: Schedule) {
    c.status == Up ==> c.nextDueAt == DueTime(cron, c.(schedule := basis))
  }

  lemma StoredDueStep(cron: CronClock, c: Check, basis: Schedule, act: Action, now: Time)
    requires DueSince(cron, c, basis)
    ensures var succeeded := act.Ping? && act.kind == Success && c.status != Paused;
            DueSince(cron, Step(cron, c, act, now).0, if succeeded then c.schedule else basis)
  {
  }

  /**
   In every run, edits included, an Up check stores the deadline of the schedule in force at its
   latest success, counted from its latest ping; so stored and recomputed deadlines agree at the
   end of a run exactly when that schedule and the present one give the same.
   */
  lemma {:induction false} StoredDueIsOfLastSuccess(cron: CronClock, c: Check, acts: seq<Timed>)
    requires DueInSync(cron, c)
    ensures var s := State(cron, c, acts);
            && DueSince(cron, s, Basis(cron, c, acts))
            && (s.status == Up ==>
                  (DueInSync(cron, s) <==> DueTime(cron, s) == DueTime(cron, s.(schedule := Basis(cron, c, acts)))))
  {
    if acts != [] {
      var n := |acts| - 1;
      StoredDueIsOfLastSuccess(cron, c, acts[..n]);
      StoredDueStep(cron, State(cron, c, acts[..n]), Basis(cron, c, acts[..n]), acts[n].act, acts[n].at);
    }
  }

  /** A longer period makes them differ until the next success. */
  lemma EditCanDesync(cron: CronClock)
    returns (c: Check, s: Schedule)
    ensures DueInSync(cron, c) && !DueInSync(cron, Step(cron, c, Edit(s), 0).0)
  {
    var hourly := Schedule(Period, Some(3600), 300, None, "UTC", None, None);
    s := hourly.(periodSecs := Some(7200));
    c := Check(1, 1, hourly, Up, Some(0), None, Some(Seconds(3900)), None, false, 0);
  }

  // ----- one scan is enough -----

  /** An active check that is neither overdue nor overrunning. */
  ghost predicate OnTime(cron: CronClock, c: Check, now: Time) {
    Active(c) ==> !Reached(DueTime(cron, c), now) && !Reached(OverrunTime(c), now)
  }

  /**
   A scan at `now` raises one Down for each check it changes and none otherwise, leaves no active
   check late at `now`, and a second scan at `now` does nothing.
   */
  lemma ScanSettles(cron: CronClock, c: Check, now: Time)
    ensures var (s, es) := ScanStep(cron, c, now);
            && OnTime(cron, s, now)
            && ScanStep(cron, s, now) == (s, [])
            && (es == [] <==> s == c) && (es == [] <==> OnTime(cron, c, now))
            && (es != [] ==> |es| == 1 && es[0].kind.DownEvent? && Active(c) && s.status == Down)
  {
  }

  /** A success ping on a check whose deadline lies after its anchor puts the deadline in the future. */
  lemma SuccessSettles(cron: CronClock, c: Check, code: Option<int>, now: Time)
    requires c.status != Paused
    requires forall e: string, z: string, t: Time :: cron(e, z, t).Some? ==> cron(e, z, t).value > t
    requires c.schedule.graceSecs >= 0
    requires c.schedule.periodSecs.Some? ==> c.schedule.periodSecs.value > 0
    requires c.lastStartAt.Some? ==> c.lastStartAt.value <= now
    ensures var s := PingStep(cron, c, Success, code, now).0;
            s.status == Up && OnTime(cron, s, now)
  {
  }
}
