/** The admin route gate of src/middleware.ts (`onRequest`).

    The access decision is the pure function `Gate`; the class `Context` holds
    what the handler changes in place (the outgoing cookies and
    `context.locals`), and its method `OnRequest` runs the handler's steps and
    is proved against `Gate` and `CookieWrites`. The three Supabase calls
    (`auth.setSession`, the `admins` lookup, the `profiles` role) are the
    fields of a `Backend` value. */
module Middleware {
  import opened Wrappers
  import opened JsString

  const PublicRoutes: seq<string> := ["/admin/login", "/admin/setup", "/api/auth", "/clips", "/"]
  const AdminOnlyRoutes: seq<string> := ["/admin/users", "/admin/settings", "/admin/messages"]
  const ModRoutes: seq<string> := ["/admin/review"]

  const LoginPath := "/admin/login"
  const UnauthorizedPath := "/unauthorized"

  const MasterSessionCookie := "admin-master-session"
  const AccessTokenCookie := "sb-access-token"
  const RefreshTokenCookie := "sb-refresh-token"

  /* ---------------------------------------------------------------------------
     Route classification
     ------------------------------------------------------------------------- */

  /** `pathname === route || pathname.startsWith(route + '/')` */
  predicate MatchesRoute(pathname: string, route: string) {
    pathname == route || StartsWith(pathname, route + "/")
  }

  /** `routes.some(route => pathname === route || pathname.startsWith(route + '/'))` */
  predicate SomeRouteMatches(routes: seq<string>, pathname: string) {
    routes != [] && (MatchesRoute(pathname, routes[0]) || SomeRouteMatches(routes[1..], pathname))
  }

  /** `routes.some(route => pathname.startsWith(route))` */
  predicate SomePrefixMatches(routes: seq<string>, pathname: string) {
    routes != [] && (StartsWith(pathname, routes[0]) || SomePrefixMatches(routes[1..], pathname))
  }

  predicate IsPublicRoute(pathname: string) {
    SomeRouteMatches(PublicRoutes, pathname)
  }

  predicate IsAdminOnlyRoute(pathname: string) {
    SomePrefixMatches(AdminOnlyRoutes, pathname)
  }

  predicate IsModRoute(pathname: string) {
    SomePrefixMatches(ModRoutes, pathname)
  }

  /** The paths the middleware does not skip: not public, and starting with
      `/admin` (a plain prefix, so `/administrator` is gated too). */
  predicate Gated(pathname: string) {
    !IsPublicRoute(pathname) && StartsWith(pathname, "/admin")
  }

  /* ---------------------------------------------------------------------------
     Inputs and the decision
     ------------------------------------------------------------------------- */

  /** `PUBLIC_SUPABASE_URL`, `PUBLIC_SUPABASE_ANON_KEY` and `ADMIN_MASTER_KEY`,
      None when unset. */
  datatype Env = Env(supabaseUrl: Option<string>, supabaseAnonKey: Option<string>, masterKey: Option<string>)

  datatype Session = Session(accessToken: string, refreshToken: string, userId: string)

  /** What `supabase.auth.setSession` answers: an error, or data whose session
      may be null. */
  datatype SetSessionResult = SetSessionError | SetSessionData(session: Option<Session>)

  /** The Supabase calls the handler makes, as functions of their arguments:
      `setSession(access, refresh)`, whether the `admins` table holds the user,
      and the user's `profiles.role` (None when there is no profile). */
  datatype Backend = Backend(
    setSession: (string, string) -> SetSessionResult,
    adminRecordExists: string -> bool,
    profileRole: string -> Option<string>)

  /** The handler's outcome: three ways of calling `next()`, and the redirects. */
  datatype Outcome =
    | PassThrough
    | MasterKeyAccess
    | SessionAccess(session: Session, isAdmin: bool, isModerator: bool)
    | RedirectTo(location: string)

  /** What Astro sees: `next()` or `context.redirect(location)`. */
  datatype Decision = Next | Redirect(location: string)

  /** The `context.locals` fields the handler assigns, None while unassigned
      (`locals.supabase`, the client object, is not modelled). */
  datatype Locals = Locals(session: Option<Option<Session>>, isAdmin: Option<bool>,
                           isModerator: Option<bool>, isMasterKeySession: Option<bool>)

  const NoLocals := Locals(None, None, None, None)

  /** `context.cookies.get(name)?.value` */
  function CookieValue(cookies: map<string, string>, name: string): Option<string> {
    if name in cookies then Some(cookies[name]) else None
  }

  /** `masterKey && masterSession === masterKey` */
  predicate IsMasterKeySession(env: Env, cookies: map<string, string>) {
    Truthy(env.masterKey) && CookieValue(cookies, MasterSessionCookie) == env.masterKey
  }

  predicate ConfigPresent(env: Env) {
    Truthy(env.supabaseUrl) && Truthy(env.supabaseAnonKey)
  }

  /** The session the handler ends up with: `setSession` is only called when both
      token cookies are truthy, and an error leaves the session null. */
  function SessionOf(cookies: map<string, string>, backend: Backend): Option<Session> {
    var accessToken, refreshToken := CookieValue(cookies, AccessTokenCookie), CookieValue(cookies, RefreshTokenCookie);
    if !(Truthy(accessToken) && Truthy(refreshToken)) then None
    else match backend.setSession(accessToken.value, refreshToken.value)
      case SetSessionError => None
      case SetSessionData(session) => session
  }

  /** `!!adminRecord || profile?.role === "admin"` */
  predicate IsAdmin(adminRecordExists: bool, role: Option<string>) {
    adminRecordExists || role == Some("admin")
  }

  /** `profile?.role === "moderator"` */
  predicate IsModerator(role: Option<string>) {
    role == Some("moderator")
  }

  /** The access decision of `onRequest`, in the order the handler makes it. */
  function Gate(pathname: string, cookies: map<string, string>, env: Env, backend: Backend): (o: Outcome)
    ensures o == PassThrough <==> !Gated(pathname)
    ensures o == MasterKeyAccess <==> Gated(pathname) && IsMasterKeySession(env, cookies)
    ensures o.RedirectTo? ==> o.location == LoginPath || o.location == UnauthorizedPath
    ensures o.SessionAccess? ==>
      SessionOf(cookies, backend) == Some(o.session) && (o.isAdmin || o.isModerator)
  {
    if !Gated(pathname) then PassThrough
    else if IsMasterKeySession(env, cookies) then MasterKeyAccess
    else if !ConfigPresent(env) then RedirectTo(LoginPath)
    else match SessionOf(cookies, backend)
      case None => RedirectTo(LoginPath)
      case Some(session) =>
        var role := backend.profileRole(session.userId);
        var isAdmin := IsAdmin(backend.adminRecordExists(session.userId), role);
        var isModerator := IsModerator(role);
        if IsAdminOnlyRoute(pathname) && !isAdmin then RedirectTo(UnauthorizedPath)
        else if IsModRoute(pathname) && !isAdmin && !isModerator then RedirectTo(UnauthorizedPath)
        else if !isAdmin && !isModerator then RedirectTo(UnauthorizedPath)
        else SessionAccess(session, isAdmin, isModerator)
  }

  function DecisionOf(o: Outcome): Decision {
    if o.RedirectTo? then Redirect(o.location) else Next
  }

  /** The `context.locals` assignments of each outcome. */
  function LocalsAfter(locals: Locals, o: Outcome): Locals {
    match o
    case MasterKeyAccess => locals.(isMasterKeySession := Some(true), session := Some(None))
    case SessionAccess(s, a, m) =>
      locals.(session := Some(Some(s)), isAdmin := Some(a), isModerator := Some(m), isMasterKeySession := Some(false))
    case _ => locals
  }

  /** The cookies the handler writes: both tokens, when `setSession` handed back
      a session whose access token differs from the presented one. This happens
      before the role checks, so it also happens on the way to `/unauthorized`. */
  function CookieWrites(pathname: string, cookies: map<string, string>, env: Env, backend: Backend): (w: map<string, string>)
    ensures w == map[] || w.Keys == {AccessTokenCookie, RefreshTokenCookie}
    ensures w != map[] ==> Gated(pathname) && SessionOf(cookies, backend).Some?
    ensures w != map[] ==>
      && ConfigPresent(env) && !IsMasterKeySession(env, cookies)
      && AccessTokenCookie in cookies
      && SessionOf(cookies, backend).value.accessToken != cookies[AccessTokenCookie]
  {
    var accessToken, refreshToken := CookieValue(cookies, AccessTokenCookie), CookieValue(cookies, RefreshTokenCookie);
    if !Gated(pathname) || IsMasterKeySession(env, cookies) || !ConfigPresent(env) then map[]
    else if !(Truthy(accessToken) && Truthy(refreshToken)) then map[]
    else match backend.setSession(accessToken.value, refreshToken.value)
      case SetSessionData(Some(s)) =>
        if s.accessToken != accessToken.value
        then map[AccessTokenCookie := s.accessToken, RefreshTokenCookie := s.refreshToken]
        else map[]
      case _ => map[]
  }

  /* ---------------------------------------------------------------------------
     The request context the handler changes
     ------------------------------------------------------------------------- */

  class Context {
    const pathname: string
    /** The cookies of the request, read with `context.cookies.get`. */
    const requestCookies: map<string, string>
    /** The cookies written with `context.cookies.set` (name to value; the
        options `path`, `httpOnly`, `secure`, `sameSite`, `maxAge` are not kept). */
    var responseCookies: map<string, string>
    var locals: Locals

    constructor (pathname: string, requestCookies: map<string, string>)
      ensures this.pathname == pathname && this.requestCookies == requestCookies
      ensures responseCookies == map[] && locals == NoLocals
    {
      this.pathname := pathname;
      this.requestCookies := requestCookies;
      responseCookies := map[];
      locals := NoLocals;
    }

    /** `onRequest(context, next)`: returns what the handler returns and leaves
        the locals and cookies it assigns. */
    method OnRequest(env: Env, backend: Backend) returns (d: Decision)
      modifies this
      ensures d == DecisionOf(Gate(pathname, requestCookies, env, backend))
      ensures locals == LocalsAfter(old(locals), Gate(pathname, requestCookies, env, backend))
      ensures responseCookies == old(responseCookies) + CookieWrites(pathname, requestCookies, env, backend)
    {
      if IsPublicRoute(pathname) || !StartsWith(pathname, "/admin") {
        return Next;
      }

      var masterSession := CookieValue(requestCookies, MasterSessionCookie);
      if Truthy(env.masterKey) && masterSession == env.masterKey {
        locals := locals.(isMasterKeySession := Some(true));
        locals := locals.(session := Some(None));
        return Next;
      }

      if !Truthy(env.supabaseUrl) || !Truthy(env.supabaseAnonKey) {
        return Redirect(LoginPath);
      }

      var session := RestoreSession(env, backend);
      if session.None? {
        return Redirect(LoginPath);
      }

      var adminRecord := backend.adminRecordExists(session.value.userId);
      var role := backend.profileRole(session.value.userId);
      var isAdmin := adminRecord || role == Some("admin");
      var isModerator := role == Some("moderator");

      if IsAdminOnlyRoute(pathname) && !isAdmin {
        return Redirect(UnauthorizedPath);
      }
      if IsModRoute(pathname) && !isAdmin && !isModerator {
        return Redirect(UnauthorizedPath);
      }
      if !isAdmin && !isModerator {
        return Redirect(UnauthorizedPath);
      }

      locals := locals.(session := Some(session));
      locals := locals.(isAdmin := Some(isAdmin));
      locals := locals.(isModerator := Some(isModerator));
      locals := locals.(isMasterKeySession := Some(false));
      return Next;
    }

    /** The `if (accessToken && refreshToken)` block around
        `supabase.auth.setSession`: the session it establishes from the two token
        cookies (none when a cookie is missing or the call reports an error), and
        the refreshed tokens written back when the access token changed. */
    method RestoreSession(env: Env, backend: Backend) returns (session: Option<Session>)
      requires Gated(pathname) && !IsMasterKeySession(env, requestCookies) && ConfigPresent(env)
      modifies this
      ensures session == SessionOf(requestCookies, backend)
      ensures responseCookies == old(responseCookies) + CookieWrites(pathname, requestCookies, env, backend)
      ensures locals == old(locals)
    {
      var accessToken := CookieValue(requestCookies, AccessTokenCookie);
      var refreshToken := CookieValue(requestCookies, RefreshTokenCookie);
      session := None;

      if Truthy(accessToken) && Truthy(refreshToken) {
        var result := backend.setSession(accessToken.value, refreshToken.value);
        if result.SetSessionData? {
          session := result.session;
          if session.Some? && session.value.accessToken != accessToken.value {
            responseCookies := responseCookies[AccessTokenCookie := session.value.accessToken];
            responseCookies := responseCookies[RefreshTokenCookie := session.value.refreshToken];
            assert responseCookies == old(responseCookies)
              + map[AccessTokenCookie := session.value.accessToken, RefreshTokenCookie := session.value.refreshToken];
          }
        }
      }
    }
  }

  /* ---------------------------------------------------------------------------
     Properties of the gate
     ------------------------------------------------------------------------- */

  /** `some` over a list of prefixes holds exactly when one of them is a prefix. */
  lemma {:induction false} SomePrefixMatchesIff(routes: seq<string>, pathname: string)
    ensures SomePrefixMatches(routes, pathname) <==> exists i :: 0 <= i < |routes| && StartsWith(pathname, routes[i])
  {
    if routes != [] {
      SomePrefixMatchesIff(routes[1..], pathname);
      assert forall i :: 1 <= i < |routes| ==> routes[i] == routes[1..][i - 1];
    }
  }

  /** `some` over the public routes: equal to a route, or below it after a `/`. */
  lemma {:induction false} SomeRouteMatchesIff(routes: seq<string>, pathname: string)
    ensures SomeRouteMatches(routes, pathname) <==> exists i :: 0 <= i < |routes| && MatchesRoute(pathname, routes[i])
  {
    if routes != [] {
      SomeRouteMatchesIff(routes[1..], pathname);
      assert forall i :: 1 <= i < |routes| ==> routes[i] == routes[1..][i - 1];
    }
  }

  /** Public paths and paths outside `/admin` go straight to `next()`: nothing is
      read, written or assigned. */
  lemma UngatedPassesThrough(pathname: string, cookies: map<string, string>, env: Env, backend: Backend)
    requires IsPublicRoute(pathname) || !StartsWith(pathname, "/admin")
    ensures Gate(pathname, cookies, env, backend) == PassThrough
    ensures CookieWrites(pathname, cookies, env, backend) == map[]
  {
  }

  /** A path that differs from `route + "/"` at some position, and is not the
      route itself, neither equals the route nor lies below it. */
  lemma DiffersFromRoute(pathname: string, route: string, k: nat)
    requires pathname != route
    requires k <= |route| && (k >= |pathname| || pathname[k] != (route + "/")[k])
    ensures !MatchesRoute(pathname, route)
  {
  }

  /** A path under `/admin` that matches neither public `/admin/...` route is
      gated: the other three public routes differ from it in its second or third
      character. */
  lemma {:induction false} GatedWhen(pathname: string)
    requires StartsWith(pathname, "/admin")
    requires !MatchesRoute(pathname, LoginPath) && !MatchesRoute(pathname, "/admin/setup")
    ensures Gated(pathname)
  {
    assert pathname[1] == 'a' && pathname[2] == 'd';
    DiffersFromRoute(pathname, "/api/auth", 2);
    DiffersFromRoute(pathname, "/clips", 1);
    DiffersFromRoute(pathname, "/", 1);
    SomeRouteMatchesIff(PublicRoutes, pathname);
    forall i | 0 <= i < |PublicRoutes| ensures !MatchesRoute(pathname, PublicRoutes[i]) {
      assert PublicRoutes[i] in {LoginPath, "/admin/setup", "/api/auth", "/clips", "/"};
    }
  }

  /** Which paths are gated: `/admin` is a plain prefix, so `/administrator` is
      gated; a path below a public route is public only after a `/` boundary. */
  lemma GatedExamples()
    ensures Gated("/admin") && Gated("/administrator") && Gated("/admin/loginx") && Gated("/admin/users/7")
  {
    DiffersFromRoute("/admin", LoginPath, 6);
    DiffersFromRoute("/admin", "/admin/setup", 6);
    GatedWhen("/admin");
    DiffersFromRoute("/administrator", LoginPath, 6);
    DiffersFromRoute("/administrator", "/admin/setup", 6);
    GatedWhen("/administrator");
    DiffersFromRoute("/admin/loginx", LoginPath, 12);
    DiffersFromRoute("/admin/loginx", "/admin/setup", 7);
    GatedWhen("/admin/loginx");
    DiffersFromRoute("/admin/users/7", LoginPath, 7);
    DiffersFromRoute("/admin/users/7", "/admin/setup", 7);
    GatedWhen("/admin/users/7");
  }

  /** The login page and everything below it, other public routes, and paths
      outside `/admin` are not gated. */
  lemma UngatedExamples()
    ensures !Gated("/admin/login") && !Gated("/admin/login/reset") && !Gated("/clips/12") && !Gated("/")
  {
    assert StartsWith("/admin/login/reset", LoginPath + "/");
    assert StartsWith("/clips/12", "/clips/");
    assert !StartsWith("/", "/admin");
  }

  /** A valid master-key cookie opens every gated path, admin-only ones included,
      without consulting Supabase; the locals mark a master-key session with a
      null session. */
  lemma MasterKeyBypass(pathname: string, cookies: map<string, string>, env: Env, backend: Backend, locals: Locals)
    requires Gated(pathname)
    requires Truthy(env.masterKey) && CookieValue(cookies, MasterSessionCookie) == env.masterKey
    ensures Gate(pathname, cookies, env, backend) == MasterKeyAccess
    ensures CookieWrites(pathname, cookies, env, backend) == map[]
    ensures LocalsAfter(locals, MasterKeyAccess).isMasterKeySession == Some(true)
    ensures LocalsAfter(locals, MasterKeyAccess).session == Some(None)
  {
  }

  /** Without the Supabase configuration, or without a session (a token cookie
      missing or empty, `setSession` failing or handing back no session), a gated
      path redirects to the login page. */
  lemma NoSessionRedirectsToLogin(pathname: string, cookies: map<string, string>, env: Env, backend: Backend)
    requires Gated(pathname) && !IsMasterKeySession(env, cookies)
    requires !ConfigPresent(env) || SessionOf(cookies, backend) == None
    ensures Gate(pathname, cookies, env, backend) == RedirectTo(LoginPath)
  {
  }

  /** The access rule the three role checks add up to: admin-only paths need an
      admin, every other gated path an admin or a moderator. The check on
      moderator routes never changes the answer. */
  predicate RoleAllows(pathname: string, isAdmin: bool, isModerator: bool) {
    if IsAdminOnlyRoute(pathname) then isAdmin else isAdmin || isModerator
  }

  /** With a session, the gate allows exactly what RoleAllows allows, records the
      session and both roles, and otherwise redirects to `/unauthorized`. */
  lemma SessionGate(pathname: string, cookies: map<string, string>, env: Env, backend: Backend)
    requires Gated(pathname) && !IsMasterKeySession(env, cookies) && ConfigPresent(env)
    requires SessionOf(cookies, backend).Some?
    ensures
      var s := SessionOf(cookies, backend).value;
      var role := backend.profileRole(s.userId);
      var isAdmin, isModerator := IsAdmin(backend.adminRecordExists(s.userId), role), IsModerator(role);
      Gate(pathname, cookies, env, backend) ==
        if RoleAllows(pathname, isAdmin, isModerator) then SessionAccess(s, isAdmin, isModerator)
        else RedirectTo(UnauthorizedPath)
  {
  }

  /** A moderator who is not an admin is turned away from the admin-only paths and
      let into the other gated ones, `/admin/review` among them. */
  lemma ModeratorAccess(pathname: string, cookies: map<string, string>, env: Env, backend: Backend)
    requires Gated(pathname) && !IsMasterKeySession(env, cookies) && ConfigPresent(env)
    requires SessionOf(cookies, backend).Some?
    requires
      var s := SessionOf(cookies, backend).value;
      !backend.adminRecordExists(s.userId) && backend.profileRole(s.userId) == Some("moderator")
    ensures Gate(pathname, cookies, env, backend).SessionAccess? <==> !IsAdminOnlyRoute(pathname)
    ensures IsAdminOnlyRoute(pathname) ==> Gate(pathname, cookies, env, backend) == RedirectTo(UnauthorizedPath)
  {
    SessionGate(pathname, cookies, env, backend);
  }

  /** Allowing with a session records it in the locals, with both roles, and
      marks the request as not a master-key session. */
  lemma SessionAccessLocals(locals: Locals, s: Session, isAdmin: bool, isModerator: bool)
    ensures LocalsAfter(locals, SessionAccess(s, isAdmin, isModerator))
      == Locals(Some(Some(s)), Some(isAdmin), Some(isModerator), Some(false))
  {
  }

  /** Token cookies are written exactly when the session `setSession` hands back
      carries an access token other than the presented one, and then they hold
      that session's two tokens. */
  lemma RefreshWritesCookies(pathname: string, cookies: map<string, string>, env: Env, backend: Backend)
    requires Gated(pathname) && !IsMasterKeySession(env, cookies) && ConfigPresent(env)
    ensures CookieWrites(pathname, cookies, env, backend) != map[] <==>
      (SessionOf(cookies, backend).Some? &&
       SessionOf(cookies, backend).value.accessToken != cookies[AccessTokenCookie])
    ensures CookieWrites(pathname, cookies, env, backend) != map[] ==>
      var s := SessionOf(cookies, backend).value;
      CookieWrites(pathname, cookies, env, backend)
        == map[AccessTokenCookie := s.accessToken, RefreshTokenCookie := s.refreshToken]
  {
    var accessToken, refreshToken := CookieValue(cookies, AccessTokenCookie), CookieValue(cookies, RefreshTokenCookie);
    if Truthy(accessToken) && Truthy(refreshToken) {
      match backend.setSession(accessToken.value, refreshToken.value)
      case SetSessionData(Some(s)) =>
        var w := map[AccessTokenCookie := s.accessToken, RefreshTokenCookie := s.refreshToken];
        if s.accessToken != accessToken.value {
          assert CookieWrites(pathname, cookies, env, backend) == w;
          assert AccessTokenCookie in w;
        }
      case _ =>
    }
  }
}
