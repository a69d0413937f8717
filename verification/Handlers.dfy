/**
 The handlers that open, elevate and end sessions, over the sessions table and the in-memory
 elevations together. No forward authentication; `hash` turns a session id into its handle.
 */
module Handlers {
  import opened Clock
  import opened Options
  import S = Sessions
  import E = Elevations

  datatype User = User(isAdmin: bool, disabled: bool, hasPassword: bool)

  /** Everything the handlers change. */
  datatype App = App(users: map<int, User>, sessions: S.Table, granted: E.Granted)

  type Hash = string -> string

  /** The verified session id of a request's cookie, if it has one. */
  type Cookie = Option<string>

  datatype Request =
    | Login(user: int, id: string, first: Time)
    | Unlock(cookie: Cookie, passwordOk: bool)
    | Logout(cookie: Cookie)
    | Revoke(cookie: Cookie, handle: string, confirmed: bool)
    | RevokeOthers(cookie: Cookie, confirmed: bool)
    | ChangePassword(cookie: Cookie, accepted: bool)
    | SetPassword(cookie: Cookie, target: int, accepted: bool)
    | ToggleDisabled(cookie: Cookie, target: int, confirmed: bool)
    | DeleteUser(cookie: Cookie, target: int, confirmed: bool)
    | Prune

  // ----- authentication -----

  /** The signed-in user of a request, and the table its lookup leaves. */
  function Authenticate(a: App, cookie: Cookie, wall: Time): (App, Option<int>) {
    if cookie.None? then (a, None)
    else
      var (t, u) := S.Lookup(a.sessions, cookie.value, wall);
      (a.(sessions := t), if u.Some? && u.value in a.users && !a.users[u.value].disabled then u else None)
  }

  function AuthenticateAdmin(a: App, cookie: Cookie, wall: Time): (App, Option<int>) {
    var (b, u) := Authenticate(a, cookie, wall);
    (b, if u.Some? && b.users[u.value].isAdmin then u else None)
  }

  // ----- what each request does -----

  /** Ends the sessions of `user`, and their elevations, except the one of `keep`. */
  function EndUser(hash: Hash, a: App, user: int, keep: Cookie): App {
    a.(sessions := S.WithoutUser(a.sessions, user, keep),
       granted := E.WithoutUser(a.granted, user, if keep.Some? then Some(hash(keep.value)) else None))
  }

  function Handle(hash: Hash, ttl: nat, a: App, req: Request, wall: Time, mono: Time): App {
    match req
    case Login(user, id, first) =>
      if user in a.users && !a.users[user].disabled && id !in a.sessions
      then a.(sessions := a.sessions[id := S.Opened(user, first, wall)]) else a
    case Unlock(cookie, ok) =>
      var (b, u) := AuthenticateAdmin(a, cookie, wall);
      if u.Some? && ok
      then b.(granted := E.WithGrant(b.granted, ttl, hash(cookie.value), u.value, mono)) else b
    case Logout(cookie) =>
      if cookie.None? then a
      else a.(sessions := a.sessions - {cookie.value}, granted := a.granted - {hash(cookie.value)})
    case Revoke(cookie, handle, confirmed) =>
      var (b, u) := Authenticate(a, cookie, wall);
      if u.Some? && confirmed && exists id :: id in S.Live(b.sessions, u.value, wall) && hash(id) == handle
      then b.(sessions := map id | id in b.sessions && hash(id) != handle :: b.sessions[id], granted := b.granted - {handle})
      else b
    case RevokeOthers(cookie, confirmed) =>
      var (b, u) := Authenticate(a, cookie, wall);
      if u.Some? && confirmed then EndUser(hash, b, u.value, cookie) else b
    case ChangePassword(cookie, accepted) =>
      var (b, u) := Authenticate(a, cookie, wall);
      if u.Some? && b.users[u.value].hasPassword && accepted then EndUser(hash, b, u.value, cookie) else b
    case SetPassword(cookie, target, accepted) =>
      var (b, u) := AuthenticateAdmin(a, cookie, wall);
      if u.Some? && accepted && target in b.users
         && (!b.users[u.value].hasPassword || E.Remaining(b.granted, ttl, hash(cookie.value), mono).Some?)
      then EndUser(hash, b, target, if target == u.value then cookie else None).(users := b.users[target := b.users[target].(hasPassword := true)])
      else b
    case ToggleDisabled(cookie, target, confirmed) =>
      var (b, u) := AuthenticateAdmin(a, cookie, wall);
      if u.Some? && target != u.value && target in b.users && (b.users[target].disabled || confirmed)
      then
        var c := b.(users := b.users[target := b.users[target].(disabled := !b.users[target].disabled)]);
        if b.users[target].disabled then c else EndUser(hash, c, target, None)
      else b
    case DeleteUser(cookie, target, confirmed) =>
      var (b, u) := AuthenticateAdmin(a, cookie, wall);
      if u.Some? && target != u.value && target in b.users && confirmed
      then EndUser(hash, b, target, None).(users := b.users - {target})
      else b
    case Prune => a.(sessions := S.Pruned(a.sessions, wall))
  }

  // ----- runs -----

  /** Sessions a request ends deliberately, as opposed to letting them expire. */
  ghost function Ended(before: App, req: Request, after: App): set<string> {
    if req.Prune? then {}
    else (before.sessions.Keys - after.sessions.Keys)
         + if req.Logout? && req.cookie.Some? then {req.cookie.value} else {}
  }

  datatype Moment = Moment(req: Request, wall: Time, mono: Time)

  /** The server, every session id it has seen, and those ended by a handler. */
  datatype World = World(app: App, seen: set<string>, ended: set<string>)

  ghost function Advance(hash: Hash, ttl: nat, w: World, m: Moment): World {
    var after := Handle(hash, ttl, w.app, m.req, m.wall, m.mono);
    var ended := Ended(w.app, m.req, after);
    World(after, w.seen + ended + (if m.req.Login? then {m.req.id} else {}), w.ended + ended)
  }

  ghost function WorldAfter(hash: Hash, ttl: nat, users: map<int, User>, ms: seq<Moment>): World {
    if ms == [] then World(App(users, map[], map[]), {}, {})
    else Advance(hash, ttl, WorldAfter(hash, ttl, users, ms[..|ms| - 1]), ms[|ms| - 1])
  }

  /** Session ids are random: a login never draws one the server has seen. */
  ghost predicate FreshLogins(hash: Hash, ttl: nat, users: map<int, User>, ms: seq<Moment>) {
    forall i :: 0 <= i < |ms| && ms[i].req.Login? ==> ms[i].req.id !in WorldAfter(hash, ttl, users, ms[..i]).seen
  }

  ghost predicate Injective(hash: Hash) {
    forall x, y :: hash(x) == hash(y) ==> x == y
  }

  ghost predicate Inv(hash: Hash, w: World) {
    && w.app.sessions.Keys <= w.seen && w.ended <= w.seen
    && (forall id :: id in w.ended ==> id !in w.app.sessions && hash(id) !in w.app.granted)
    && (forall id :: id in w.app.sessions && hash(id) in w.app.granted ==>
          w.app.granted[hash(id)].userId == w.app.sessions[id].userId)
    && (forall id :: hash(id) in w.app.granted ==> id in w.seen)
  }

  /** The lookup behind every request moves no session in or out. */
  lemma AuthenticateKeeps(a: App, cookie: Cookie, wall: Time)
    ensures var (b, u) := Authenticate(a, cookie, wall);
            && b.users == a.users && b.granted == a.granted
            && b.sessions.Keys == a.sessions.Keys
            && (forall id :: id in a.sessions ==> b.sessions[id].userId == a.sessions[id].userId)
            && (u.Some? ==> cookie.Some? && cookie.value in a.sessions && a.sessions[cookie.value].userId == u.value)
  {
  }

  lemma AuthenticateInv(hash: Hash, w: World, cookie: Cookie, wall: Time)
    requires Inv(hash, w)
    ensures Inv(hash, w.(app := Authenticate(w.app, cookie, wall).0))
  {
  }

  /** Ending a user's sessions takes their elevations along. */
  lemma EndUserInv(hash: Hash, w: World, user: int, keep: Cookie)
    requires Injective(hash) && Inv(hash, w)
    ensures var after := EndUser(hash, w.app, user, keep);
            var ended := w.app.sessions.Keys - after.sessions.Keys;
            Inv(hash, World(after, w.seen + ended, w.ended + ended))
  {
  }

  lemma LoginInv(hash: Hash, ttl: nat, w: World, m: Moment)
    requires Injective(hash) && Inv(hash, w) && m.req.Login? && m.req.id !in w.seen
    ensures Inv(hash, Advance(hash, ttl, w, m))
  {
  }

  lemma LogoutInv(hash: Hash, ttl: nat, w: World, m: Moment)
    requires Injective(hash) && Inv(hash, w) && m.req.Logout?
    ensures Inv(hash, Advance(hash, ttl, w, m))
  {
  }

  /** Expiry leaves elevations to their own short window. */
  lemma PruneInv(hash: Hash, ttl: nat, w: World, m: Moment)
    requires Inv(hash, w) && m.req.Prune?
    ensures Inv(hash, Advance(hash, ttl, w, m))
  {
  }

  lemma UnlockInv(hash: Hash, ttl: nat, w: World, m: Moment)
    requires Injective(hash) && Inv(hash, w) && m.req.Unlock?
    ensures Inv(hash, Advance(hash, ttl, w, m))
  {
    AuthenticateKeeps(w.app, m.req.cookie, m.wall);
    AuthenticateInv(hash, w, m.req.cookie, m.wall);
  }

  lemma RevokeInv(hash: Hash, ttl: nat, w: World, m: Moment)
    requires Injective(hash) && Inv(hash, w) && m.req.Revoke?
    ensures Inv(hash, Advance(hash, ttl, w, m))
  {
    AuthenticateKeeps(w.app, m.req.cookie, m.wall);
    AuthenticateInv(hash, w, m.req.cookie, m.wall);
  }

  /** The requests that end all of a user's sessions but perhaps one. */
  predicate EndsUser(req: Request) {
    req.RevokeOthers? || req.ChangePassword? || req.SetPassword? || req.ToggleDisabled? || req.DeleteUser?
  }

  /** Apart from the users table, such a request does nothing beyond its lookup or ends one user. */
  lemma EndsOneUser(hash: Hash, ttl: nat, a: App, req: Request, wall: Time, mono: Time) returns (user: int, keep: Cookie)
    requires EndsUser(req)
    ensures keep == None || keep == req.cookie
    ensures var b := Authenticate(a, req.cookie, wall).0;
            var c := Handle(hash, ttl, a, req, wall, mono);
            c.(users := a.users) == b || c.(users := a.users) == EndUser(hash, b, user, keep)
    ensures keep.Some? ==> user == (var u := Authenticate(a, req.cookie, wall).1; if u.Some? then u.value else user)
  {
    var u := Authenticate(a, req.cookie, wall).1;
    keep := None;
    user := 0;
    match req
    case RevokeOthers(cookie, _) =>
      keep := cookie;
      if u.Some? { user := u.value; }
    case ChangePassword(cookie, _) =>
      keep := cookie;
      if u.Some? { user := u.value; }
    case SetPassword(cookie, target, _) =>
      user := target;
      if u == Some(target) { keep := cookie; }
    case ToggleDisabled(_, target, _) =>
      user := target;
    case DeleteUser(_, target, _) =>
      user := target;
  }

  lemma EndsUserInv(hash: Hash, ttl: nat, w: World, m: Moment)
    requires Injective(hash) && Inv(hash, w) && EndsUser(m.req)
    ensures Inv(hash, Advance(hash, ttl, w, m))
  {
    AuthenticateKeeps(w.app, m.req.cookie, m.wall);
    AuthenticateInv(hash, w, m.req.cookie, m.wall);
    var b := Authenticate(w.app, m.req.cookie, m.wall).0;
    var user, keep := EndsOneUser(hash, ttl, w.app, m.req, m.wall, m.mono);
    EndUserInv(hash, w.(app := b), user, keep);
  }

  lemma AdvanceKeepsInv(hash: Hash, ttl: nat, w: World, m: Moment)
    requires Injective(hash) && Inv(hash, w)
    requires m.req.Login? ==> m.req.id !in w.seen
    ensures Inv(hash, Advance(hash, ttl, w, m))
  {
    if EndsUser(m.req) {
      EndsUserInv(hash, ttl, w, m);
    } else if m.req.Unlock? {
      UnlockInv(hash, ttl, w, m);
    } else if m.req.Revoke? {
      RevokeInv(hash, ttl, w, m);
    } else if m.req.Login? {
      LoginInv(hash, ttl, w, m);
    } else if m.req.Logout? {
      LogoutInv(hash, ttl, w, m);
    } else {
      PruneInv(hash, ttl, w, m);
    }
  }

  lemma {:induction false} InvHolds(hash: Hash, ttl: nat, users: map<int, User>, ms: seq<Moment>)
    requires Injective(hash) && FreshLogins(hash, ttl, users, ms)
    ensures Inv(hash, WorldAfter(hash, ttl, users, ms))
  {
    if ms != [] {
      var n := |ms| - 1;
      forall i | 0 <= i < n ensures ms[..n][..i] == ms[..i] {
      }
      assert ms[..n] == ms[..|ms| - 1];
      InvHolds(hash, ttl, users, ms[..n]);
      AdvanceKeepsInv(hash, ttl, WorldAfter(hash, ttl, users, ms[..n]), ms[n]);
    }
  }

  /**
   In every run, a session that some handler ended is gone and has no elevation, then and ever
   after: there is not even an expired entry left for its handle.
   */
  lemma EndedSessionsAreNotElevated(hash: Hash, ttl: nat, users: map<int, User>, ms: seq<Moment>, id: string, mono: Time)
    requires Injective(hash) && FreshLogins(hash, ttl, users, ms)
    requires id in WorldAfter(hash, ttl, users, ms).ended
    ensures var a := WorldAfter(hash, ttl, users, ms).app;
            && id !in a.sessions && hash(id) !in a.granted
            && E.Remaining(a.granted, ttl, hash(id), mono) == None
  {
    InvHolds(hash, ttl, users, ms);
  }

  lemma UnlockTouchesOne(hash: Hash, ttl: nat, a: App, m: Moment, id: string, later: Time)
    requires Injective(hash) && m.req.Unlock? && m.req.cookie != Some(id) && m.mono <= later
    ensures E.Remaining(Handle(hash, ttl, a, m.req, m.wall, m.mono).granted, ttl, hash(id), later)
         == E.Remaining(a.granted, ttl, hash(id), later)
  {
  }

  lemma EndingSparesOthers(hash: Hash, ttl: nat, w: World, m: Moment, id: string)
    requires Injective(hash) && Inv(hash, w) && EndsUser(m.req)
    requires id in w.app.sessions && id in Advance(hash, ttl, w, m).app.sessions
    ensures var g := Advance(hash, ttl, w, m).app.granted;
            && (hash(id) in g <==> hash(id) in w.app.granted)
            && (hash(id) in g ==> g[hash(id)] == w.app.granted[hash(id)])
  {
    AuthenticateKeeps(w.app, m.req.cookie, m.wall);
    var user, keep := EndsOneUser(hash, ttl, w.app, m.req, m.wall, m.mono);
  }

  lemma RevokingSparesOthers(hash: Hash, ttl: nat, a: App, m: Moment, id: string)
    requires Injective(hash) && !EndsUser(m.req) && !m.req.Unlock?
    requires var b := Handle(hash, ttl, a, m.req, m.wall, m.mono); id in a.sessions && id in b.sessions
    ensures var g := Handle(hash, ttl, a, m.req, m.wall, m.mono).granted;
            && (hash(id) in g <==> hash(id) in a.granted)
            && (hash(id) in g ==> g[hash(id)] == a.granted[hash(id)])
  {
  }

  /**
   A session that survives a request, other than the one being unlocked, has the same elevation
   after it as before, at every later instant: the kept session, and those of every other user.
   */
  lemma SurvivorsUntouched(hash: Hash, ttl: nat, w: World, m: Moment, id: string, later: Time)
    requires Injective(hash) && Inv(hash, w) && m.mono <= later
    requires id in w.app.sessions && id in Advance(hash, ttl, w, m).app.sessions
    requires !(m.req.Unlock? && m.req.cookie == Some(id))
    ensures E.Remaining(Advance(hash, ttl, w, m).app.granted, ttl, hash(id), later)
         == E.Remaining(w.app.granted, ttl, hash(id), later)
  {
    if EndsUser(m.req) {
      EndingSparesOthers(hash, ttl, w, m, id);
    } else if m.req.Unlock? {
      UnlockTouchesOne(hash, ttl, w.app, m, id, later);
    } else {
      RevokingSparesOthers(hash, ttl, w.app, m, id);
    }
  }

  /** A handle names one session. */
  lemma OnlyOne(hash: Hash, t: S.Table, target: string)
    requires Injective(hash)
    ensures t - {target} == map id | id in t && hash(id) != hash(target) :: t[id]
  {
  }

  // ----- implementation -----

  class AppState {
    const hash: Hash
    var users: map<int, User>
    const store: S.SessionStore
    const elevations: E.Elevations

    ghost function View(): App
      reads this, store, elevations
    {
      App(users, store.sessions, elevations.granted)
    }

    constructor (hash: Hash, users: map<int, User>)
      ensures this.hash == hash && elevations.ttlSecs == E.ELEVATION_TTL_SECS
      ensures View() == App(users, map[], map[])
      ensures fresh(store) && fresh(elevations)
    {
      this.hash := hash;
      this.users := users;
      store := new S.SessionStore();
      elevations := new E.Elevations(E.ELEVATION_TTL_SECS);
    }

    method CurrentUser(cookie: Cookie, wall: Time) returns (user: Option<int>)
      modifies store
      ensures (View(), user) == Authenticate(old(View()), cookie, wall)
    {
      if cookie.None? {
        return None;
      }
      user := store.FindSessionUser(cookie.value, wall);
      if user.Some? && !(user.value in users && !users[user.value].disabled) {
        user := None;
      }
    }

    method AdminUser(cookie: Cookie, wall: Time) returns (user: Option<int>)
      modifies store
      ensures (View(), user) == AuthenticateAdmin(old(View()), cookie, wall)
    {
      user := CurrentUser(cookie, wall);
      if user.Some? && !users[user.value].isAdmin {
        user := None;
      }
    }

    /** `first` is the reading the expiry is counted from, `wall` the creation. */
    method Login(user: int, id: string, first: Time, wall: Time, ghost mono: Time)
      modifies store
      ensures View() == Handle(hash, elevations.ttlSecs, old(View()), Request.Login(user, id, first), wall, mono)
    {
      if user in users && !users[user].disabled {
        var _ := store.CreateSession(id, S.Opened(user, first, wall));
      }
    }

    method Unlock(cookie: Cookie, passwordOk: bool, wall: Time, mono: Time)
      modifies store, elevations
      ensures View() == Handle(hash, elevations.ttlSecs, old(View()), Request.Unlock(cookie, passwordOk), wall, mono)
    {
      var admin := AdminUser(cookie, wall);
      if admin.Some? && passwordOk && cookie.Some? {
        elevations.Grant(hash(cookie.value), admin.value, mono);
      }
    }

    method Logout(cookie: Cookie, ghost wall: Time, ghost mono: Time)
      modifies store, elevations
      ensures View() == Handle(hash, elevations.ttlSecs, old(View()), Request.Logout(cookie), wall, mono)
    {
      if cookie.Some? {
        store.DeleteSession(cookie.value);
        elevations.Revoke(hash(cookie.value));
      }
    }

    /** Revokes one of the caller's own sessions, found among the live ones by its handle. */
    method SessionsRevoke(cookie: Cookie, handle: string, confirmed: bool, wall: Time, ghost mono: Time)
      requires Injective(hash)
      modifies store, elevations
      ensures View() == Handle(hash, elevations.ttlSecs, old(View()), Request.Revoke(cookie, handle, confirmed), wall, mono)
    {
      var user := CurrentUser(cookie, wall);
      if user.None? {
        return;
      }
      var live := store.ListSessionsForUser(user.value, wall);
      if !(exists id :: id in live && hash(id) == handle) || !confirmed {
        return;
      }
      var target :| target in live && hash(target) == handle;
      OnlyOne(hash, store.sessions, target);
      store.DeleteSessionOwned(target, user.value);
      elevations.Revoke(handle);
    }

    /** Deletes `user`'s sessions except `keep`, and their elevations. */
    method EndSessions(user: int, keep: Cookie)
      modifies store, elevations
      ensures View() == EndUser(hash, old(View()), user, keep)
    {
      if keep.Some? {
        var _ := store.DeleteOtherSessionsForUser(user, keep.value);
        elevations.RevokeUser(user, Some(hash(keep.value)));
      } else {
        var _ := store.DeleteSessionsForUser(user);
        elevations.RevokeUser(user, None);
      }
    }

    method SessionsRevokeOthers(cookie: Cookie, confirmed: bool, wall: Time, ghost mono: Time)
      modifies store, elevations
      ensures View() == Handle(hash, elevations.ttlSecs, old(View()), Request.RevokeOthers(cookie, confirmed), wall, mono)
    {
      var user := CurrentUser(cookie, wall);
      if user.Some? && confirmed {
        EndSessions(user.value, cookie);
      }
    }

    method AccountPassword(cookie: Cookie, accepted: bool, wall: Time, ghost mono: Time)
      modifies store, elevations
      ensures View() == Handle(hash, elevations.ttlSecs, old(View()), Request.ChangePassword(cookie, accepted), wall, mono)
    {
      var user := CurrentUser(cookie, wall);
      if user.Some? && users[user.value].hasPassword && accepted {
        EndSessions(user.value, cookie);
      }
    }

    method UsersSetPassword(cookie: Cookie, target: int, accepted: bool, wall: Time, mono: Time)
      modifies this, store, elevations
      ensures View() == Handle(hash, elevations.ttlSecs, old(View()), Request.SetPassword(cookie, target, accepted), wall, mono)
    {
      var admin := AdminUser(cookie, wall);
      if admin.None? {
        return;
      }
      if users[admin.value].hasPassword {
        var left := elevations.RemainingSecs(hash(cookie.value), mono);
        if left.None? {
          return;
        }
      }
      if !accepted || target !in users {
        return;
      }
      users := users[target := users[target].(hasPassword := true)];
      EndSessions(target, if target == admin.value then cookie else None);
    }

    method UsersSetDisabled(cookie: Cookie, target: int, confirmed: bool, wall: Time, ghost mono: Time)
      modifies this, store, elevations
      ensures View() == Handle(hash, elevations.ttlSecs, old(View()), Request.ToggleDisabled(cookie, target, confirmed), wall, mono)
    {
      var admin := AdminUser(cookie, wall);
      if admin.None? || target == admin.value || target !in users {
        return;
      }
      var disable := !users[target].disabled;
      if disable && !confirmed {
        return;
      }
      users := users[target := users[target].(disabled := disable)];
      if disable {
        EndSessions(target, None);
      }
    }

    /** The sessions go with the user's row. */
    method UsersDelete(cookie: Cookie, target: int, confirmed: bool, wall: Time, ghost mono: Time)
      modifies this, store, elevations
      ensures View() == Handle(hash, elevations.ttlSecs, old(View()), Request.DeleteUser(cookie, target, confirmed), wall, mono)
    {
      var admin := AdminUser(cookie, wall);
      if admin.None? || target == admin.value || target !in users || !confirmed {
        return;
      }
      users := users - {target};
      EndSessions(target, None);
    }
  }
}
