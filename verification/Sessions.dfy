/** Login sessions: the sliding idle window under an absolute cap, and the sessions table. */
module Sessions {
  import opened Clock
  import opened Options

  const IDLE: int := Hours(72)
  const HALF_IDLE: int := Hours(36)
  const ABSOLUTE_MAX: int := Hours(30 * 24)

  /** `createdAt` is absent on a row from before it was recorded. */
  datatype Session = Session(userId: int, createdAt: Option<Time>, lastSeenAt: Option<Time>, expiresAt: Time)

  datatype RenewalKind = Slid | Clamped

  datatype Renewal = Renewal(expiresAt: Time, kind: RenewalKind)

  function Min(a: int, b: int): int {
    if a < b then a else b
  }

  predicate PastCap(createdAt: Option<Time>, now: Time) {
    createdAt.Some? && now >= createdAt.value + ABSOLUTE_MAX
  }

  /** The new `expiresAt`, or none when no write is needed. */
  function RefreshedExpiry(createdAt: Option<Time>, expiresAt: Time, now: Time): Option<Renewal> {
    if createdAt.Some? && expiresAt >= createdAt.value + ABSOLUTE_MAX then None
    else
      var next := if createdAt.Some? then Min(now + IDLE, createdAt.value + ABSOLUTE_MAX) else now + IDLE;
      if expiresAt > next then Some(Renewal(next, Clamped))
      else if expiresAt - now >= HALF_IDLE then None
      else Some(Renewal(next, Slid))
  }

  /** A lookup at `now` does not accept the session. */
  predicate Refused(s: Session, now: Time) {
    s.expiresAt <= now || PastCap(s.createdAt, now)
  }

  /** The row after an accepted lookup; `lastSeenAt` is refreshed at most once a minute. */
  function Touched(s: Session, now: Time): Session {
    match RefreshedExpiry(s.createdAt, s.expiresAt, now)
    case Some(r) => s.(lastSeenAt := Some(now), expiresAt := r.expiresAt)
    case None =>
      if s.lastSeenAt.None? || now - s.lastSeenAt.value >= Seconds(60) then s.(lastSeenAt := Some(now)) else s
  }

  type Table = map<string, Session>

  function Lookup(t: Table, id: string, now: Time): (Table, Option<int>) {
    if id in t && !Refused(t[id], now) then (t[id := Touched(t[id], now)], Some(t[id].userId))
    else (t, None)
  }

  /** What `/account` lists; the page sorts it by creation and id. */
  function Live(t: Table, user: int, now: Time): Table {
    map id | id in t && t[id].userId == user && !Refused(t[id], now) :: t[id]
  }

  function WithoutUser(t: Table, user: int, keep: Option<string>): Table {
    map id | id in t && (t[id].userId != user || keep == Some(id)) :: t[id]
  }

  /** The condition of the prune statement. */
  predicate Prunable(s: Session, now: Time) {
    s.expiresAt <= now || (s.createdAt.Some? && s.createdAt.value <= now - ABSOLUTE_MAX)
  }

  function Pruned(t: Table, now: Time): Table {
    map id | id in t && !Prunable(t[id], now) :: t[id]
  }

  function CapPruned(t: Table, user: int, now: Time): Table {
    map id | id in t && !(t[id].userId == user && t[id].createdAt.Some? && t[id].createdAt.value <= now - ABSOLUTE_MAX) :: t[id]
  }

  /** A row as `open_session` writes it: the clock is read once for the expiry and again for the creation. */
  function Opened(user: int, first: Time, second: Time): Session {
    Session(user, Some(second), None, first + IDLE)
  }

  class SessionStore {
    var sessions: Table

    constructor ()
      ensures sessions == map[]
    {
      sessions := map[];
    }

    /** A row with that id is refused by the primary key. */
    method CreateSession(id: string, s: Session) returns (created: bool)
      modifies this
      ensures created <==> id !in old(sessions)
      ensures sessions == if created then old(sessions)[id := s] else old(sessions)
    {
      created := id !in sessions;
      if created {
        sessions := sessions[id := s];
      }
    }

    method FindSessionUser(id: string, now: Time) returns (user: Option<int>)
      modifies this
      ensures (sessions, user) == Lookup(old(sessions), id, now)
    {
      if id !in sessions || !(sessions[id].expiresAt > now) {
        return None;
      }
      var row := sessions[id];
      if PastCap(row.createdAt, now) {
        return None;
      }
      var stale := row.lastSeenAt.None? || now - row.lastSeenAt.value >= Seconds(60);
      match RefreshedExpiry(row.createdAt, row.expiresAt, now) {
        case Some(renewal) =>
          sessions := sessions[id := row.(lastSeenAt := Some(now), expiresAt := renewal.expiresAt)];
        case None =>
          if stale {
            sessions := sessions[id := row.(lastSeenAt := Some(now))];
          }
      }
      assert !stale && RefreshedExpiry(row.createdAt, row.expiresAt, now).None? ==> old(sessions) == old(sessions)[id := row];
      return Some(row.userId);
    }

    /** Unexpired in SQL, then filtered by the cap. */
    method ListSessionsForUser(user: int, now: Time) returns (live: Table)
      ensures live == Live(sessions, user, now)
    {
      var rows := map id | id in sessions && sessions[id].userId == user && sessions[id].expiresAt > now :: sessions[id];
      live := map id | id in rows && !PastCap(rows[id].createdAt, now) :: rows[id];
    }

    method DeleteSession(id: string)
      modifies this
      ensures sessions == old(sessions) - {id}
    {
      sessions := sessions - {id};
    }

    method DeleteSessionOwned(id: string, user: int)
      modifies this
      ensures sessions == if id in old(sessions) && old(sessions)[id].userId == user then old(sessions) - {id} else old(sessions)
    {
      if id in sessions && sessions[id].userId == user {
        sessions := sessions - {id};
      }
    }

    /** Also reports how many rows went. */
    method DeleteOtherSessionsForUser(user: int, keep: string) returns (count: nat)
      modifies this
      ensures sessions == WithoutUser(old(sessions), user, Some(keep))
      ensures count == |old(sessions)| - |sessions|
    {
      var rest := map id | id in sessions && (sessions[id].userId != user || id == keep) :: sessions[id];
      SmallerTable(rest, sessions);
      count := |sessions| - |rest|;
      sessions := rest;
    }

    method DeleteSessionsForUser(user: int) returns (count: nat)
      modifies this
      ensures sessions == WithoutUser(old(sessions), user, None)
      ensures count == |old(sessions)| - |sessions|
    {
      var rest := map id | id in sessions && sessions[id].userId != user :: sessions[id];
      SmallerTable(rest, sessions);
      count := |sessions| - |rest|;
      sessions := rest;
    }

    method DeleteExpiredSessions(now: Time) returns (count: nat)
      modifies this
      ensures sessions == Pruned(old(sessions), now)
      ensures count == |old(sessions)| - |sessions|
    {
      var capBefore := now - ABSOLUTE_MAX;
      var rest := map id | id in sessions
        && !(sessions[id].expiresAt <= now || (sessions[id].createdAt.Some? && sessions[id].createdAt.value <= capBefore))
        :: sessions[id];
      SmallerTable(rest, sessions);
      count := |sessions| - |rest|;
      sessions := rest;
    }

    method DeleteCappedSessionsForUser(user: int, now: Time) returns (count: nat)
      modifies this
      ensures sessions == CapPruned(old(sessions), user, now)
      ensures count == |old(sessions)| - |sessions|
    {
      var capBefore := now - ABSOLUTE_MAX;
      var rest := map id | id in sessions
        && !(sessions[id].userId == user && sessions[id].createdAt.Some? && sessions[id].createdAt.value <= capBefore)
        :: sessions[id];
      SmallerTable(rest, sessions);
      count := |sessions| - |rest|;
      sessions := rest;
    }
  }

  lemma SmallerTable(a: Table, b: Table)
    requires a.Keys <= b.Keys
    ensures |a| <= |b|
  {
    assert b.Keys == a.Keys + (b.Keys - a.Keys);
    assert |a| == |a.Keys| && |b| == |b.Keys|;
  }
}
