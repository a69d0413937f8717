/**
 What each request does to the sessions and the elevations, with its guard and its effect spelled out
 on the users, rows and windows themselves.
 */
module HandlerEffects {
  import opened Clock
  import opened Options
  import opened Handlers
  import S = Sessions
  import E = Elevations

  // ----- guards -----

  /** The session has neither expired nor lived for thirty days. */
  predicate Alive(s: S.Session, wall: Time) {
    && wall < s.expiresAt
    && (s.createdAt.Some? ==> wall < s.createdAt.value + 30 * 24 * 3_600_000_000_000)
  }

  /** The cookie names a live session of an existing, enabled user. */
  predicate SignedIn(a: App, cookie: Cookie, wall: Time) {
    && cookie.Some? && cookie.value in a.sessions && Alive(a.sessions[cookie.value], wall)
    && a.sessions[cookie.value].userId in a.users
    && !a.users[a.sessions[cookie.value].userId].disabled
  }

  function Caller(a: App, cookie: Cookie, wall: Time): int
    requires SignedIn(a, cookie, wall)
  {
    a.sessions[cookie.value].userId
  }

  predicate SignedInAdmin(a: App, cookie: Cookie, wall: Time) {
    SignedIn(a, cookie, wall) && a.users[Caller(a, cookie, wall)].isAdmin
  }

  /** The caller confirmed a password on this session less than `ttl` seconds ago. */
  predicate Elevated(hash: Hash, ttl: nat, a: App, cookie: Cookie, mono: Time)
    requires cookie.Some?
  {
    var h := hash(cookie.value);
    ttl > 0 && h in a.granted && mono - a.granted[h].at < ttl * 1_000_000_000
  }

  // ----- effects -----

  /** Nobody is signed out; at most the caller's own row is refreshed. */
  ghost predicate SessionsKept(a: App, b: App, cookie: Cookie) {
    && (forall id :: id in b.sessions <==> id in a.sessions)
    && RowsKept(a, b, cookie)
  }

  /** The rows still there are as they were, but for the refreshed times of the caller's. */
  ghost predicate RowsKept(a: App, b: App, cookie: Cookie) {
    forall id :: id in b.sessions && id in a.sessions ==>
      && b.sessions[id].userId == a.sessions[id].userId && b.sessions[id].createdAt == a.sessions[id].createdAt
      && (cookie != Some(id) ==> b.sessions[id] == a.sessions[id])
  }

  ghost predicate WindowsKept(a: App, b: App) {
    b.granted == a.granted
  }

  /** Of `user`'s sessions and elevations exactly the ones of `keep` are left, of other users' all. */
  ghost predicate Ends(hash: Hash, a: App, b: App, cookie: Cookie, user: int, keep: Cookie) {
    && (forall id :: id in b.sessions <==> id in a.sessions && (a.sessions[id].userId != user || keep == Some(id)))
    && RowsKept(a, b, cookie)
    && (forall h :: h in b.granted <==>
          h in a.granted && (a.granted[h].userId != user || (keep.Some? && h == hash(keep.value))))
    && (forall h :: h in b.granted ==> b.granted[h] == a.granted[h])
  }

  ghost predicate NothingEnds(a: App, b: App, cookie: Cookie) {
    SessionsKept(a, b, cookie) && WindowsKept(a, b) && b.users == a.users
  }

  // ----- who is asking -----

  lemma WhoIs(a: App, cookie: Cookie, wall: Time)
    ensures var (b, u) := Authenticate(a, cookie, wall);
            && NothingEnds(a, b, cookie)
            && (u.Some? <==> SignedIn(a, cookie, wall))
            && (u.Some? ==> u.value == Caller(a, cookie, wall))
  {
  }

  lemma WhichAdmin(a: App, cookie: Cookie, wall: Time)
    ensures var (b, u) := AuthenticateAdmin(a, cookie, wall);
            && NothingEnds(a, b, cookie)
            && (u.Some? <==> SignedInAdmin(a, cookie, wall))
            && (u.Some? ==> u.value == Caller(a, cookie, wall))
  {
    WhoIs(a, cookie, wall);
  }

  lemma EndUserEnds(hash: Hash, a: App, b: App, cookie: Cookie, user: int, keep: Cookie)
    requires NothingEnds(a, b, cookie)
    ensures Ends(hash, a, EndUser(hash, b, user, keep), cookie, user, keep)
    ensures EndUser(hash, b, user, keep).users == b.users
  {
  }

  // ----- the requests -----

  /** A login opens one session, of an enabled user, for 72 hours from the first clock reading. */
  lemma LoginEffect(hash: Hash, ttl: nat, a: App, user: int, id: string, first: Time, wall: Time, mono: Time)
    ensures var b := Handle(hash, ttl, a, Login(user, id, first), wall, mono);
            && b.users == a.users && WindowsKept(a, b)
            && b.sessions ==
                 if user in a.users && !a.users[user].disabled && id !in a.sessions
                 then a.sessions[id := S.Session(user, Some(wall), None, first + 72 * 3_600_000_000_000)]
                 else a.sessions
  {
  }

  /**
   A window opens only for an enabled administrator whose password was right, on the session that
   asked; the windows that have run out are swept on that occasion, and no others.
   */
  lemma UnlockEffect(hash: Hash, ttl: nat, a: App, cookie: Cookie, passwordOk: bool, wall: Time, mono: Time)
    ensures var b := Handle(hash, ttl, a, Unlock(cookie, passwordOk), wall, mono);
            && SessionsKept(a, b, cookie) && b.users == a.users
            && (if SignedInAdmin(a, cookie, wall) && passwordOk then
                  var mine := hash(cookie.value);
                  && mine in b.granted && b.granted[mine] == E.Window(Caller(a, cookie, wall), mono)
                  && (forall h :: h != mine ==>
                        (h in b.granted <==> h in a.granted && ttl > 0 && mono - a.granted[h].at < ttl * 1_000_000_000))
                  && (forall h :: h != mine && h in b.granted ==> b.granted[h] == a.granted[h])
                else WindowsKept(a, b))
  {
    WhichAdmin(a, cookie, wall);
  }

  lemma LogoutEffect(hash: Hash, ttl: nat, a: App, cookie: Cookie, wall: Time, mono: Time)
    ensures var b := Handle(hash, ttl, a, Logout(cookie), wall, mono);
            && b.users == a.users
            && (forall id :: id in b.sessions <==> id in a.sessions && cookie != Some(id))
            && (forall id :: id in b.sessions ==> b.sessions[id] == a.sessions[id])
            && (forall h :: h in b.granted <==> h in a.granted && !(cookie.Some? && h == hash(cookie.value)))
            && (forall h :: h in b.granted ==> b.granted[h] == a.granted[h])
  {
  }

  /** One of the caller's own live sessions, named by its handle, goes with its elevation. */
  lemma RevokeEffect(hash: Hash, ttl: nat, a: App, cookie: Cookie, handle: string, confirmed: bool, wall: Time, mono: Time)
    ensures var b := Handle(hash, ttl, a, Revoke(cookie, handle, confirmed), wall, mono);
            if SignedIn(a, cookie, wall) && confirmed && OwnHandle(hash, a, Caller(a, cookie, wall), handle, wall) then
              && b.users == a.users && RowsKept(a, b, cookie)
              && (forall id :: id in b.sessions <==> id in a.sessions && hash(id) != handle)
              && (forall h :: h in b.granted <==> h in a.granted && h != handle)
              && (forall h :: h in b.granted ==> b.granted[h] == a.granted[h])
            else NothingEnds(a, b, cookie)
  {
    WhoIs(a, cookie, wall);
    if SignedIn(a, cookie, wall) {
      OwnHandleTouched(hash, a, cookie, Caller(a, cookie, wall), handle, wall);
    }
  }

  ghost predicate OwnHandle(hash: Hash, a: App, user: int, handle: string, wall: Time) {
    exists id :: id in a.sessions && a.sessions[id].userId == user && Alive(a.sessions[id], wall) && hash(id) == handle
  }

  lemma TouchedIsAlive(s: S.Session, wall: Time)
    requires Alive(s, wall)
    ensures Alive(S.Touched(s, wall), wall) && S.Touched(s, wall).userId == s.userId
  {
  }

  /** The caller's lookup changes nobody's liveness. */
  lemma OwnHandleTouched(hash: Hash, a: App, cookie: Cookie, user: int, handle: string, wall: Time)
    requires SignedIn(a, cookie, wall)
    ensures var live := S.Live(Authenticate(a, cookie, wall).0.sessions, user, wall);
            (exists id :: id in live && hash(id) == handle) <==> OwnHandle(hash, a, user, handle, wall)
  {
    var b := Authenticate(a, cookie, wall).0;
    var live := S.Live(b.sessions, user, wall);
    TouchedIsAlive(a.sessions[cookie.value], wall);
    forall id ensures id in live <==> id in a.sessions && a.sessions[id].userId == user && Alive(a.sessions[id], wall) {
    }
    if OwnHandle(hash, a, user, handle, wall) {
      var id :| id in a.sessions && a.sessions[id].userId == user && Alive(a.sessions[id], wall) && hash(id) == handle;
      assert id in live;
    }
  }

  lemma RevokeOthersEffect(hash: Hash, ttl: nat, a: App, cookie: Cookie, confirmed: bool, wall: Time, mono: Time)
    ensures var b := Handle(hash, ttl, a, RevokeOthers(cookie, confirmed), wall, mono);
            if SignedIn(a, cookie, wall) && confirmed
            then b.users == a.users && Ends(hash, a, b, cookie, Caller(a, cookie, wall), cookie)
            else NothingEnds(a, b, cookie)
  {
    WhoIs(a, cookie, wall);
    var (b, u) := Authenticate(a, cookie, wall);
    if u.Some? {
      EndUserEnds(hash, a, b, cookie, u.value, cookie);
    }
  }

  lemma ChangePasswordEffect(hash: Hash, ttl: nat, a: App, cookie: Cookie, accepted: bool, wall: Time, mono: Time)
    ensures var b := Handle(hash, ttl, a, ChangePassword(cookie, accepted), wall, mono);
            if SignedIn(a, cookie, wall) && a.users[Caller(a, cookie, wall)].hasPassword && accepted
            then b.users == a.users && Ends(hash, a, b, cookie, Caller(a, cookie, wall), cookie)
            else NothingEnds(a, b, cookie)
  {
    WhoIs(a, cookie, wall);
    var (b, u) := Authenticate(a, cookie, wall);
    if u.Some? {
      EndUserEnds(hash, a, b, cookie, u.value, cookie);
    }
  }

  /** A reset needs an elevation if the administrator has a password; on oneself it keeps the session that asked. */
  lemma SetPasswordEffect(hash: Hash, ttl: nat, a: App, cookie: Cookie, target: int, accepted: bool, wall: Time, mono: Time)
    ensures var b := Handle(hash, ttl, a, SetPassword(cookie, target, accepted), wall, mono);
            if SignedInAdmin(a, cookie, wall) && accepted && target in a.users
               && (a.users[Caller(a, cookie, wall)].hasPassword ==> Elevated(hash, ttl, a, cookie, mono))
            then
              && b.users == a.users[target := a.users[target].(hasPassword := true)]
              && Ends(hash, a, b, cookie, target, if target == Caller(a, cookie, wall) then cookie else None)
            else NothingEnds(a, b, cookie)
  {
    WhichAdmin(a, cookie, wall);
    var (b, u) := AuthenticateAdmin(a, cookie, wall);
    if u.Some? {
      ElevatedIff(hash, ttl, a, cookie, mono);
      EndUserEnds(hash, a, b, cookie, target, if target == u.value then cookie else None);
    }
  }

  lemma ElevatedIff(hash: Hash, ttl: nat, a: App, cookie: Cookie, mono: Time)
    requires cookie.Some?
    ensures E.Remaining(a.granted, ttl, hash(cookie.value), mono).Some? <==> Elevated(hash, ttl, a, cookie, mono)
  {
  }

  /** Disabling somebody else ends all that is theirs; enabling ends nothing. */
  lemma ToggleDisabledEffect(hash: Hash, ttl: nat, a: App, cookie: Cookie, target: int, confirmed: bool, wall: Time, mono: Time)
    ensures var b := Handle(hash, ttl, a, ToggleDisabled(cookie, target, confirmed), wall, mono);
            if SignedInAdmin(a, cookie, wall) && target != Caller(a, cookie, wall) && target in a.users
               && (a.users[target].disabled || confirmed)
            then
              && b.users == a.users[target := a.users[target].(disabled := !a.users[target].disabled)]
              && (if a.users[target].disabled then SessionsKept(a, b, cookie) && WindowsKept(a, b)
                  else Ends(hash, a, b, cookie, target, None))
            else NothingEnds(a, b, cookie)
  {
    WhichAdmin(a, cookie, wall);
    EndUserEnds(hash, a, AuthenticateAdmin(a, cookie, wall).0, cookie, target, None);
  }

  lemma DeleteUserEffect(hash: Hash, ttl: nat, a: App, cookie: Cookie, target: int, confirmed: bool, wall: Time, mono: Time)
    ensures var b := Handle(hash, ttl, a, DeleteUser(cookie, target, confirmed), wall, mono);
            if SignedInAdmin(a, cookie, wall) && target != Caller(a, cookie, wall) && target in a.users && confirmed
            then b.users == a.users - {target} && Ends(hash, a, b, cookie, target, None)
            else NothingEnds(a, b, cookie)
  {
    WhichAdmin(a, cookie, wall);
    EndUserEnds(hash, a, AuthenticateAdmin(a, cookie, wall).0, cookie, target, None);
  }

  /** A prune removes the sessions that are no longer alive. */
  lemma PruneEffect(hash: Hash, ttl: nat, a: App, wall: Time, mono: Time)
    ensures var b := Handle(hash, ttl, a, Prune, wall, mono);
            && b.users == a.users && WindowsKept(a, b)
            && (forall id :: id in b.sessions <==> id in a.sessions && Alive(a.sessions[id], wall))
            && (forall id :: id in b.sessions ==> b.sessions[id] == a.sessions[id])
  {
  }

  // ----- what the ended sessions can still do -----

  /** After a password change, nobody signed in as that user but on the session that made it. */
  lemma ChangedPasswordSignsOut(hash: Hash, ttl: nat, a: App, cookie: Cookie, wall: Time, mono: Time, other: string, later: Time)
    requires SignedIn(a, cookie, wall) && a.users[Caller(a, cookie, wall)].hasPassword && cookie != Some(other)
    requires other in a.sessions && a.sessions[other].userId == Caller(a, cookie, wall)
    ensures !SignedIn(Handle(hash, ttl, a, ChangePassword(cookie, true), wall, mono), Some(other), later)
  {
    ChangePasswordEffect(hash, ttl, a, cookie, true, wall, mono);
  }
}
