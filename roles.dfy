/** Login and the role-based redirects of app.py: `home`, `login`, the role
    guards of the three per-role pages, and the redirect after a profile edit.
    Roles are the free-text `role` column, compared as strings. */
module Roles {
  import opened Users

  const UsuarioRole: string := "Usuario"
  const CreadorRole: string := "Creador"
  const AdminRole: string := "Administrador"

  /** One of the three role strings the handlers compare against. */
  predicate KnownRole(role: string)
  {
    role == UsuarioRole || role == CreadorRole || role == AdminRole
  }

  /** The per-role landing pages: home_usuario, home_creador, admin_panel. */
  datatype Page = HomeUsuario | HomeCreador | AdminPanel

  /** The role each landing page's guard admits. */
  function RequiredRole(p: Page): (r: string)
    ensures KnownRole(r)
  {
    match p
    case HomeUsuario => UsuarioRole
    case HomeCreador => CreadorRole
    case AdminPanel => AdminRole
  }

  /** The if/elif chain shared by `home` and `login`; None when no branch matches. */
  function RoleRedirect(role: string): (r: Option<Page>)
    ensures r.None? <==> !KnownRole(role)
    ensures r.Some? ==> RequiredRole(r.value) == role
  {
    if role == UsuarioRole then Some(HomeUsuario)
    else if role == CreadorRole then Some(HomeCreador)
    else if role == AdminRole then Some(AdminPanel)
    else None
  }

  /** The redirect at the end of `edit_profile`, which has no administrator branch. */
  function ProfileRedirect(role: string): (r: Option<Page>)
    ensures r.None? <==> role != UsuarioRole && role != CreadorRole
    ensures r.Some? ==> RequiredRole(r.value) == role && r.value != AdminPanel
  {
    if role == UsuarioRole then Some(HomeUsuario)
    else if role == CreadorRole then Some(HomeCreador)
    else None
  }

  /** Reading the redirect chain backwards: each page is reached from exactly its own role. */
  lemma RoleRedirectInverse(p: Page, role: string)
    ensures RoleRedirect(RequiredRole(p)) == Some(p)
    ensures RoleRedirect(role) == Some(p) <==> role == RequiredRole(p)
  {
  }

  /** What the guard of a landing page does: send a visitor without a session to
      the login page, send a session naming no stored user, or a user of another
      role, back to `home`, and otherwise let the request through. */
  datatype Access = ToLogin | ToHome | Granted

  /** Some stored user with key `id` has the role page `p` requires. */
  predicate HasRoleFor(users: seq<User>, id: UserId, p: Page)
  {
    exists k :: 0 <= k < |users| && users[k].id == id && users[k].role == RequiredRole(p)
  }

  /** The guard at the top of home_usuario, home_creador and admin_panel. */
  function PageGuard(users: seq<User>, session: Option<UserId>, p: Page): (r: Access)
    ensures r == ToLogin <==> session.None?
    ensures r == Granted ==> session.Some? && HasRoleFor(users, session.value, p)
    ensures DistinctIds(users) ==> (r == Granted <==> session.Some? && HasRoleFor(users, session.value, p))
  {
    if session.None? then ToLogin
    else match UserById(users, session.value)
      case None => ToHome
      case Some(k) =>
        if users[k].role != RequiredRole(p) then ToHome
        else Granted
  }

  /** A session is let through by at most one of the three landing pages. */
  lemma GuardGrantsOnePage(users: seq<User>, session: Option<UserId>, p: Page, q: Page)
    requires PageGuard(users, session, p) == Granted && PageGuard(users, session, q) == Granted
    ensures p == q
  {
  }

  /** `home`: None means the plain home page is rendered. */
  function Home(users: seq<User>, session: Option<UserId>): (r: Option<Page>)
    requires DistinctIds(users)
    ensures r.Some? <==> (session.Some? &&
      exists k :: 0 <= k < |users| && users[k].id == session.value && KnownRole(users[k].role))
    ensures r.Some? ==> PageGuard(users, session, r.value) == Granted
  {
    if session.None? then None
    else match UserById(users, session.value)
      case None => None
      case Some(k) =>
        assert forall j :: 0 <= j < |users| && users[j].id == session.value ==> j == k;
        RoleRedirect(users[k].role)
  }

  /** What `login` does on a POST: either rejects, or sets `session['user_id']`
      and picks the redirect (None: the login page is rendered again). */
  datatype LoginOutcome = BadCredentials | LoggedIn(session: UserId, redirect: Option<Page>)

  /** `login`: the earliest user with this username, if the password checks. */
  function Login(users: seq<User>, username: string, password: string): (r: LoginOutcome)
    ensures r.LoggedIn? <==>
      exists k :: FirstWith(users, Username, username, k) && CheckPassword(users[k].password, password)
    ensures r.LoggedIn? ==> forall k :: FirstWith(users, Username, username, k) ==>
      r.session == users[k].id && r.redirect == RoleRedirect(users[k].role)
  {
    match FindUser(users, Username, username)
    case None => BadCredentials
    case Some(k) =>
      assert forall j :: FirstWith(users, Username, username, j) ==> j == k;
      if CheckPassword(users[k].password, password) then LoggedIn(users[k].id, RoleRedirect(users[k].role))
      else BadCredentials
  }

  /** A redirect chosen at login leads to a page whose guard admits the new session. */
  lemma LoginLandsOnAdmittingPage(users: seq<User>, username: string, password: string)
    requires DistinctIds(users)
    requires Login(users, username, password).LoggedIn?
    requires Login(users, username, password).redirect.Some?
    ensures PageGuard(users, Some(Login(users, username, password).session),
                      Login(users, username, password).redirect.value) == Granted
  {
  }
}
