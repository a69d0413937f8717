/** Short-lived elevations, by session handle. */
module Elevations {
  import opened Clock
  import opened Options

  const ELEVATION_TTL_SECS: nat := 900

  /** Who was elevated, and when. */
  datatype Window = Window(userId: int, at: Time)

  type Granted = map<string, Window>

  /** Seconds left on a handle's window, or none. */
  function Remaining(g: Granted, ttl: nat, handle: string, now: Time): Option<nat> {
    if handle in g && ElapsedSecs(g[handle].at, now) < ttl
    then Some(ttl - ElapsedSecs(g[handle].at, now))
    else None
  }

  /** The entries a grant at `now` does not sweep, and the new one. */
  function WithGrant(g: Granted, ttl: nat, handle: string, user: int, now: Time): Granted {
    (map h | h in g && ElapsedSecs(g[h].at, now) < ttl :: g[h])[handle := Window(user, now)]
  }

  function WithoutUser(g: Granted, user: int, keep: Option<string>): Granted {
    map h | h in g && (g[h].userId != user || keep == Some(h)) :: g[h]
  }

  class Elevations {
    const ttlSecs: nat
    var granted: Granted

    constructor (ttl: nat)
      ensures granted == map[] && ttlSecs == ttl
    {
      ttlSecs := ttl;
      granted := map[];
    }

    /** Starts or restarts `handle`'s window, sweeping expired entries. */
    method Grant(handle: string, user: int, now: Time)
      modifies this
      ensures granted == WithGrant(old(granted), ttlSecs, handle, user, now)
    {
      granted := map h | h in granted && ElapsedSecs(granted[h].at, now) < ttlSecs :: granted[h];
      granted := granted[handle := Window(user, now)];
    }

    method RemainingSecs(handle: string, now: Time) returns (left: Option<nat>)
      ensures left == Remaining(granted, ttlSecs, handle, now)
    {
      if handle !in granted {
        return None;
      }
      var elapsed := ElapsedSecs(granted[handle].at, now);
      if elapsed > ttlSecs || ttlSecs - elapsed == 0 {
        return None;
      }
      return Some(ttlSecs - elapsed);
    }

    method Revoke(handle: string)
      modifies this
      ensures granted == old(granted) - {handle}
    {
      granted := granted - {handle};
    }

    /** Ends the windows of every session of `user` except `keep`. */
    method RevokeUser(user: int, keep: Option<string>)
      modifies this
      ensures granted == WithoutUser(old(granted), user, keep)
    {
      granted := map h | h in granted && (granted[h].userId != user || keep == Some(h)) :: granted[h];
    }
  }

  /** Sweeping on a grant is invisible: other handles read the same from then on. */
  lemma SweepIsInvisible(g: Granted, ttl: nat, handle: string, user: int, now: Time, other: string, later: Time)
    requires other != handle && now <= later
    ensures Remaining(WithGrant(g, ttl, handle, user, now), ttl, other, later) == Remaining(g, ttl, other, later)
  {
  }

  /** What is left of a window is its length less the whole seconds that have passed. */
  lemma LeftIs(g: Granted, ttl: nat, handle: string, now: Time, left: nat)
    requires handle in g && g[handle].at <= now
    ensures Remaining(g, ttl, handle, now) == Some(left) <==>
              left > 0 && (ttl - left) * 1_000_000_000 <= now - g[handle].at < (ttl - left + 1) * 1_000_000_000
  {
  }

  /** A grant lasts exactly `ttl` seconds. */
  lemma GrantLasts(g: Granted, ttl: nat, handle: string, user: int, now: Time, later: Time)
    requires now <= later
    ensures Remaining(WithGrant(g, ttl, handle, user, now), ttl, handle, later).Some?
       <==> later < now + Seconds(ttl)
  {
  }
}
