/** The whole table of checks as a transition system, and its projection to single checks. */
module CheckTable {
  import opened Clock
  import opened Options
  import opened Checks
  import opened Incidents

  /** Every row is stored under its own id. */
  ghost predicate Keyed(t: map<int, Check>) {
    forall id :: id in t ==> t[id].id == id
  }

  /** The events of one check, in order. */
  ghost function EventsOf(es: seq<Event>, id: int): seq<Event> {
    if es == [] then []
    else EventsOf(es[..|es| - 1], id) + if es[|es| - 1].checkId == id then [es[|es| - 1]] else []
  }

  lemma EventsOfAppend(es: seq<Event>, more: seq<Event>, owner: int, id: int)
    requires |more| <= 1 && forall e :: e in more ==> e.checkId == owner
    ensures EventsOf(es + more, id) == EventsOf(es, id) + if owner == id then more else []
  {
    if more == [] {
      assert es + more == es;
    } else {
      assert (es + more)[..|es|] == es;
    }
  }

  function ProjectNag(nags: map<int, Option<int>>, projectId: int): Option<int> {
    if projectId in nags then nags[projectId] else None
  }

  /** What can happen to the table: one request about one check, or a pass over all of them. */
  datatype TableAction =
    | One(id: int, act: Action)
    | ScanPass
    | NagPass(projectNags: map<int, Option<int>>, globalNag: Option<int>)

  /** The step check `c` takes in it, if any. */
  function Local(act: TableAction, c: Check): Option<Action> {
    match act
    case One(id, a) => if id == c.id then Some(a) else None
    case ScanPass => Some(Scan)
    case NagPass(nags, g) => Some(Nag(ProjectNag(nags, c.projectId), g))
  }

  function LocalStep(cron: CronClock, c: Check, act: TableAction, at: Time): (Check, seq<Event>) {
    match Local(act, c)
    case None => (c, [])
    case Some(a) => Step(cron, c, a, at)
  }

  /** Every event is about a check of the table. */
  ghost predicate Domestic(es: seq<Event>, t: map<int, Check>) {
    forall i :: 0 <= i < |es| ==> es[i].checkId in t
  }

  /** The table and the emitted events, the latter in any order among checks. */
  ghost predicate Next(cron: CronClock, was: map<int, Check>, act: TableAction, at: Time, t: map<int, Check>, es: seq<Event>) {
    && t.Keys == was.Keys && Domestic(es, was)
    && forall id :: id in was ==> (t[id], EventsOf(es, id)) == LocalStep(cron, was[id], act, at)
  }

  lemma OneNext(cron: CronClock, was: map<int, Check>, id: int, act: Action, at: Time)
    requires Keyed(was)
    ensures id in was ==>
              var (c, es) := Step(cron, was[id], act, at);
              Next(cron, was, One(id, act), at, was[id := c], es)
    ensures id !in was ==> Next(cron, was, One(id, act), at, was, [])
  {
    if id in was {
      var (c, es) := Step(cron, was[id], act, at);
      AtMostOneEvent(cron, was[id], act, at);
      forall j | j in was ensures EventsOf(es, j) == if id == j then es else [] {
        EventsOfAppend([], es, id, j);
        assert [] + es == es;
      }
    }
  }

  /** Events that are about no check of the table are none. */
  lemma NoEvents(es: seq<Event>, t: map<int, Check>)
    requires Domestic(es, t) && forall id :: id in t ==> EventsOf(es, id) == []
    ensures es == []
  {
    if es != [] {
      var last := es[|es| - 1];
      assert EventsOf(es, last.checkId) == EventsOf(es[..|es| - 1], last.checkId) + [last];
    }
  }

  lemma SameRows(a: map<int, Check>, b: map<int, Check>)
    requires a.Keys == b.Keys && forall id :: id in b ==> a[id] == b[id]
    ensures a == b
  {
    forall id | id in a ensures id in b && a[id] == b[id] {
      assert id in a.Keys;
    }
  }

  /** A second scan of the whole table at the same instant changes no row and emits nothing. */
  lemma RescanIsQuiet(cron: CronClock, was: map<int, Check>, at: Time,
                      t: map<int, Check>, es: seq<Event>, t': map<int, Check>, es': seq<Event>)
    requires Next(cron, was, ScanPass, at, t, es) && Next(cron, t, ScanPass, at, t', es')
    ensures t' == t && es' == []
  {
    forall id | id in t ensures t'[id] == t[id] && EventsOf(es', id) == [] {
      assert (t[id], EventsOf(es, id)) == LocalStep(cron, was[id], ScanPass, at);
      assert (t'[id], EventsOf(es', id)) == LocalStep(cron, t[id], ScanPass, at);
      ScanSettles(cron, was[id], at);
    }
    NoEvents(es', t);
    SameRows(t', t);
  }

  datatype Moment = Moment(act: TableAction, at: Time, table: map<int, Check>, emitted: seq<Event>)

  /** Each moment follows from the table before it. */
  ghost predicate Run(cron: CronClock, start: map<int, Check>, ms: seq<Moment>) {
    forall i :: 0 <= i < |ms| ==> Next(cron, TableAt(start, ms, i), ms[i].act, ms[i].at, ms[i].table, ms[i].emitted)
  }

  /** The table before moment `i`. */
  ghost function TableAt(start: map<int, Check>, ms: seq<Moment>, i: nat): map<int, Check>
    requires i <= |ms|
  {
    if i == 0 then start else ms[i - 1].table
  }

  ghost function AllEvents(ms: seq<Moment>): seq<Event> {
    if ms == [] then [] else AllEvents(ms[..|ms| - 1]) + ms[|ms| - 1].emitted
  }

  /** The steps check `c` took. */
  ghost function LocalActs(ms: seq<Moment>, c: Check): seq<Timed> {
    if ms == [] then []
    else
      var m := ms[|ms| - 1];
      LocalActs(ms[..|ms| - 1], c) + match Local(m.act, c) case None => [] case Some(a) => [Timed(a, m.at)]
  }

  lemma {:induction false} EventsOfConcat(a: seq<Event>, b: seq<Event>, id: int)
    ensures EventsOf(a + b, id) == EventsOf(a, id) + EventsOf(b, id)
  {
    if b == [] {
      assert a + b == a;
    } else {
      assert (a + b)[..|a + b| - 1] == a + b[..|b| - 1];
      EventsOfConcat(a, b[..|b| - 1], id);
    }
  }

  lemma StepKeepsIdentity(cron: CronClock, c: Check, act: Action, at: Time)
    ensures var s := Step(cron, c, act, at).0; s.id == c.id && s.projectId == c.projectId
  {
  }

  lemma RunPrefix(cron: CronClock, start: map<int, Check>, ms: seq<Moment>)
    requires Run(cron, start, ms) && ms != []
    ensures Run(cron, start, ms[..|ms| - 1])
    ensures TableAt(start, ms[..|ms| - 1], |ms| - 1) == TableAt(start, ms, |ms| - 1)
  {
  }

  /**
   Every run of the table, seen from one check, is a run of that check alone: its row and its
   events are those of the steps addressed to it.
   */
  lemma {:induction false} TableRunProjects(cron: CronClock, start: map<int, Check>, ms: seq<Moment>, id: int)
    requires Run(cron, start, ms) && Keyed(start) && id in start
    ensures var acts := LocalActs(ms, start[id]);
            && id in TableAt(start, ms, |ms|)
            && TableAt(start, ms, |ms|)[id] == State(cron, start[id], acts)
            && EventsOf(AllEvents(ms), id) == Trace(cron, start[id], acts)
            && State(cron, start[id], acts).id == id
            && State(cron, start[id], acts).projectId == start[id].projectId
  {
    if ms != [] {
      var n := |ms| - 1;
      var p, m, c := ms[..n], ms[n], start[id];
      RunPrefix(cron, start, ms);
      TableRunProjects(cron, start, p, id);
      EventsOfConcat(AllEvents(p), m.emitted, id);
      var before := LocalActs(p, c);
      var s := State(cron, c, before);
      assert Next(cron, TableAt(start, ms, n), m.act, m.at, m.table, m.emitted);
      assert (m.table[id], EventsOf(m.emitted, id)) == LocalStep(cron, s, m.act, m.at);
      match Local(m.act, c)
      case None =>
        assert LocalActs(ms, c) == before;
      case Some(a) =>
        assert (before + [Timed(a, m.at)])[..|before|] == before;
        StepKeepsIdentity(cron, s, a, m.at);
    }
  }

  /** The ledger of every check in every run of the whole table. */
  lemma TableLedger(cron: CronClock, start: map<int, Check>, ms: seq<Moment>, id: int)
    requires Run(cron, start, ms) && Keyed(start) && id in start && Fresh(start[id])
    ensures id in TableAt(start, ms, |ms|)
    ensures Downs(EventsOf(AllEvents(ms), id))
         == Ups(EventsOf(AllEvents(ms), id)) + Abandoned(cron, start[id], LocalActs(ms, start[id]))
            + if TableAt(start, ms, |ms|)[id].status == Down then 1 else 0
  {
    TableRunProjects(cron, start, ms, id);
    Ledger(cron, start[id], LocalActs(ms, start[id]));
  }
}
