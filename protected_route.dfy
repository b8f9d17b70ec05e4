/** The client's route guard: what a protected route shows for the current
    authentication state. */
module ProtectedRoute {
  import opened Outcomes
  import opened Roles
  import opened AuthContext

  /** The spinner, a redirect to one of three pages, or the child routes. */
  datatype View = Spinner | ToLogin | ToWorkspaces | ToUnauthorized | Outlet

  /** The route's props: `requireAuth` (default true), `requireWorkspace`
      (default false) and `requiredRole` (default null, which is absent). */
  datatype Guard = Guard(requireAuth: bool, requireWorkspace: bool, requiredRole: Option<string>)

  const Defaults := Guard(true, false, None)

  /** The checks in order: wait for the state to load, then authentication,
      then the workspace (not on the workspace selection page itself), then
      the role. */
  function Decide(s: Session, guard: Guard, path: string): (v: View)
  {
    if s.loading || !s.initialized then Spinner
    else if guard.requireAuth && !IsAuthenticated(s) then ToLogin
    else if guard.requireWorkspace && s.current.None? && path != "/workspaces" then ToWorkspaces
    else if Present(guard.requiredRole) && !HasWorkspaceRole(s, guard.requiredRole.value) then ToUnauthorized
    else Outlet
  }

  /** While the state is loading the spinner shows, whatever else holds;
      once it has loaded the spinner never shows. */
  lemma SpinnerExactlyWhileLoading(s: Session, guard: Guard, path: string)
    ensures Decide(s, guard, path) == Spinner <==> s.loading || !s.initialized
  {
  }

  /** A route requiring authentication sends a signed-out visitor to the
      login page, whatever the workspace and role requirements. */
  lemma SignedOutGoesToLogin(s: Session, guard: Guard, path: string)
    requires !s.loading && s.initialized && guard.requireAuth && !IsAuthenticated(s)
    ensures Decide(s, guard, path) == ToLogin
  {
  }

  /** The child routes render exactly when every requested check passes. */
  lemma OutletExactlyWhenAllPass(s: Session, guard: Guard, path: string)
    ensures Decide(s, guard, path) == Outlet <==>
              && !s.loading && s.initialized
              && (guard.requireAuth ==> IsAuthenticated(s))
              && (guard.requireWorkspace ==> s.current.Some? || path == "/workspaces")
              && (Present(guard.requiredRole) ==> HasWorkspaceRole(s, guard.requiredRole.value))
  {
  }

  /** Each redirect names the first check that fails: the workspace
      selector only for a signed-in visitor (when required) without a
      workspace, the unauthorized page only once the earlier checks pass. */
  lemma RedirectsInOrder(s: Session, guard: Guard, path: string)
    ensures Decide(s, guard, path) == ToWorkspaces ==>
              (guard.requireAuth ==> IsAuthenticated(s)) && s.current.None? && path != "/workspaces"
    ensures Decide(s, guard, path) == ToUnauthorized ==>
              && (guard.requireAuth ==> IsAuthenticated(s))
              && (guard.requireWorkspace ==> s.current.Some? || path == "/workspaces")
              && Present(guard.requiredRole) && !HasWorkspaceRole(s, guard.requiredRole.value)
  {
  }

  /** The workspace selection page is never redirected to itself. */
  lemma WorkspacesPageNotRedirected(s: Session, guard: Guard)
    ensures Decide(s, guard, "/workspaces") != ToWorkspaces
  {
  }

  /** A route with a required role renders only for a signed-in user with a
      current workspace whose role satisfies it, even when it does not
      require authentication itself. */
  lemma RoleRouteAdmits(s: Session, guard: Guard, path: string, required: Role)
    requires guard.requiredRole == Some(Name(required))
    requires Decide(s, guard, path) == Outlet
    ensures IsAuthenticated(s) && s.current.Some?
    ensures ParseRole(s.current.value.role).Some? && Satisfies(ParseRole(s.current.value.role).value, required)
  {
    ParseName(required);
  }

  /** With the default props, a loaded state renders the child routes
      exactly when someone is signed in. */
  lemma DefaultsNeedOnlySignIn(s: Session, path: string)
    requires !s.loading && s.initialized
    ensures Decide(s, Defaults, path) == Outlet <==> IsAuthenticated(s)
    ensures Decide(s, Defaults, path) != Outlet ==> Decide(s, Defaults, path) == ToLogin
  {
  }

  /** After the first load the spinner is gone, and a visitor whose token
      was refused is sent to the login page by any route requiring it. */
  lemma AfterLoad(s: Session, response: MeResponse, guard: Guard, path: string)
    requires s == Fresh(s.storedToken, s.storedWorkspaceId)
    ensures Decide(Load(s, response), guard, path) != Spinner
    ensures response.MeFailed? && guard.requireAuth ==> Decide(Load(s, response), guard, path) == ToLogin
  {
  }

  /** After logout, once loaded, every route requiring authentication
      redirects to the login page, and every route with a required role
      redirects away. */
  lemma AfterLogout(s: Session, guard: Guard, path: string)
    requires !s.loading && s.initialized
    ensures guard.requireAuth ==> Decide(SignOut(s), guard, path) == ToLogin
    ensures Present(guard.requiredRole) ==> Decide(SignOut(s), guard, path) != Outlet
  {
  }
}
