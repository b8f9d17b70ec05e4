/** The client's authentication state: who is signed in, the workspaces the
    server listed for them, the workspace they work in, what the browser
    keeps in local storage and the default headers sent with every request.
    Each operation is a function from one session to the next; the
    `AuthProvider` class performs the same steps on its fields. */
module AuthContext {
  import opened Outcomes
  import opened Js
  import opened Roles

  /** A workspace as the server lists it for the signed-in user, with the
      user's role in it as text. */
  datatype WorkspaceEntry = WorkspaceEntry(id: int, name: string, role: string)

  /** Everything the provider keeps. The user object is reduced to its id. */
  datatype Session = Session(
    user: Option<int>,
    workspaces: seq<WorkspaceEntry>,
    current: Option<WorkspaceEntry>,
    loading: bool,
    initialized: bool,
    /** `localStorage.token` */
    storedToken: Option<string>,
    /** `localStorage.currentWorkspaceId` */
    storedWorkspaceId: Option<string>,
    /** the default `Authorization` header */
    authHeader: Option<string>,
    /** the default `X-Workspace-ID` header */
    workspaceHeader: Option<string>)

  /** A freshly mounted provider over what local storage already holds. */
  function Fresh(storedToken: Option<string>, storedWorkspaceId: Option<string>): (s: Session)
    ensures s.user.None? && s.current.None? && s.workspaces == []
    ensures s.loading && !s.initialized
  {
    Session(None, [], None, true, false, storedToken, storedWorkspaceId, None, None)
  }

  /** `setAuthToken`: a non-empty token becomes a bearer header, anything else
      removes the header. */
  function BearerHeader(token: Option<string>): (h: Option<string>)
    ensures h.Some? <==> Present(token)
  {
    if Present(token) then Some("Bearer " + token.value) else None
  }

  /** `!!user`. */
  predicate IsAuthenticated(s: Session) {
    s.user.Some?
  }

  /** `hasWorkspaceRole(required)`: false without a user or a current
      workspace; otherwise the ranks of the current role and the required
      role compared through `roleHierarchy`, where a name missing from the
      table ranks as `undefined` and every comparison with it is false. */
  predicate HasWorkspaceRole(s: Session, required: string) {
    && s.user.Some? && s.current.Some?
    && ParseRole(s.current.value.role).Some? && ParseRole(required).Some?
    && Rank(ParseRole(s.current.value.role).value) >= Rank(ParseRole(required).value)
  }

  /** The client grants a role exactly when the server's guard would, given
      that the current workspace carries the member's role. */
  lemma HasWorkspaceRoleRanks(s: Session, actual: Role, required: Role)
    requires s.user.Some? && s.current.Some? && s.current.value.role == Name(actual)
    ensures HasWorkspaceRole(s, Name(required)) <==> Satisfies(actual, required)
  {
    ParseName(actual);
    ParseName(required);
  }

  /** Signed out, or with no current workspace, no role is granted; neither
      is a role name outside the table, on either side. */
  lemma NoRoleWithout(s: Session, required: string)
    ensures s.user.None? || s.current.None? ==> !HasWorkspaceRole(s, required)
    ensures ParseRole(required).None? ==> !HasWorkspaceRole(s, required)
    ensures s.current.Some? && ParseRole(s.current.value.role).None? ==> !HasWorkspaceRole(s, required)
  {
  }

  /** A granted role grants every role ranked below it. */
  lemma HasWorkspaceRoleDownward(s: Session, high: Role, low: Role)
    requires HasWorkspaceRole(s, Name(high)) && Satisfies(high, low)
    ensures HasWorkspaceRole(s, Name(low))
  {
    ParseName(high);
    ParseName(low);
  }

  // ---------------------------------------------------------------------
  // Choosing the current workspace

  /** `workspaces.find(w => w.id === id)`: the position of the first entry
      with that id. */
  function FindById(ws: seq<WorkspaceEntry>, id: JsNum): (r: Option<nat>)
    ensures r.Some? ==> r.value < |ws| && id == Num(ws[r.value].id)
    ensures r.Some? ==> forall j :: 0 <= j < r.value ==> id != Num(ws[j].id)
    ensures r.None? ==> forall j :: 0 <= j < |ws| ==> id != Num(ws[j].id)
  {
    if ws == [] then None
    else if id == Num(ws[0].id) then Some(0)
    else
      match FindById(ws[1..], id)
      case None => None
      case Some(i) => Some(i + 1)
  }

  /** What loading the user does with the current workspace: leave it,
      restore the saved one, or take the first one and save its id. */
  datatype Selection = Unchanged | Restore(w: WorkspaceEntry) | Default(w: WorkspaceEntry)

  /** The saved id, when non-empty, restores the first listed workspace with
      that id; failing that the first workspace is taken; an empty list
      leaves the current workspace as it was. */
  function SelectWorkspace(ws: seq<WorkspaceEntry>, saved: Option<string>): (r: Selection)
    ensures r.Unchanged? <==> ws == []
    ensures r.Restore? ==> Present(saved) && r.w in ws && ParseIntAutoRadix(saved.value) == Num(r.w.id)
    ensures r.Restore? ==>
              exists i :: 0 <= i < |ws| && ws[i] == r.w && (forall j :: 0 <= j < i ==> ws[j].id != r.w.id)
    ensures r.Default? ==> r.w == ws[0]
    ensures r.Default? && Present(saved) ==> forall w :: w in ws ==> ParseIntAutoRadix(saved.value) != Num(w.id)
  {
    if Present(saved) && |ws| > 0 then
      match FindById(ws, ParseIntAutoRadix(saved.value))
      case Some(i) => Restore(ws[i])
      case None => Default(ws[0])
    else if |ws| > 0 then Default(ws[0])
    else Unchanged
  }

  /** Ids of the listed workspaces are distinct. */
  predicate DistinctIds(ws: seq<WorkspaceEntry>) {
    forall i, j :: 0 <= i < j < |ws| ==> ws[i].id != ws[j].id
  }

  /** A saved id written as `id.toString()` restores that very workspace. */
  lemma SavedIdRestores(ws: seq<WorkspaceEntry>, w: WorkspaceEntry)
    requires w in ws && DistinctIds(ws)
    ensures SelectWorkspace(ws, Some(IntToString(w.id))) == Restore(w)
  {
    ParseIntOfIntToString(w.id);
    var r := SelectWorkspace(ws, Some(IntToString(w.id)));
    var k :| 0 <= k < |ws| && ws[k] == w;
    assert ParseIntAutoRadix(IntToString(w.id)) == Num(ws[k].id);
    assert r.Restore?;
    var i :| 0 <= i < |ws| && ws[i] == r.w && forall j :: 0 <= j < i ==> ws[j].id != r.w.id;
    assert ws[i].id == ws[k].id;
  }

  // ---------------------------------------------------------------------
  // Operations on a session

  /** What `GET /api/auth/me` answered: a failure, or the user and the
      `workspaces` field (absent when it is not an array). */
  datatype MeResponse = MeFailed | Me(userId: int, workspaces: Option<seq<WorkspaceEntry>>)

  /** `loadUser` on mount: with a non-empty stored token, set the header
      and ask the server; on an answer take the user and the workspaces and
      select the current one; on a failure forget the token. Loading ends
      either way. */
  function Load(s: Session, response: MeResponse): (t: Session)
  {
    var signedIn :=
      if !Present(s.storedToken) then s
      else
        match response
        case MeFailed => s.(storedToken := None, authHeader := None)
        case Me(u, list) =>
          var ws := if list.Some? then list.value else [];
          var t := s.(authHeader := BearerHeader(s.storedToken), user := Some(u), workspaces := ws);
          Select(t, SelectWorkspace(ws, s.storedWorkspaceId));
    signedIn.(loading := false, initialized := true)
  }

  /** Carrying out a selection: a restored workspace becomes current, a
      default one becomes current and its id is saved. */
  function Select(s: Session, selection: Selection): (t: Session)
  {
    match selection
    case Unchanged => s
    case Restore(w) => s.(current := Some(w))
    case Default(w) => s.(current := Some(w), storedWorkspaceId := Some(IntToString(w.id)))
  }

  /** What `POST /api/auth/login` or `/register` answered: a failure, or the
      token, the user and the `workspaces` field (absent when null). */
  datatype SignInResponse =
    | SignInFailed(error: Option<string>)
    | SignedIn(token: string, userId: int, workspaces: Option<seq<WorkspaceEntry>>)

  /** `login` and `register`: on success store the token, set the header,
      take the user and the workspaces and make the first workspace current,
      saving its id; a failure only ends loading. */
  function SignIn(s: Session, response: SignInResponse): (t: Session)
  {
    match response
    case SignInFailed(_) => s.(loading := false)
    case SignedIn(token, u, list) =>
      var ws := if list.Some? then list.value else [];
      var t := s.(storedToken := Some(token), authHeader := BearerHeader(Some(token)),
                  user := Some(u), workspaces := ws, loading := false);
      if |ws| > 0 then t.(current := Some(ws[0]), storedWorkspaceId := Some(IntToString(ws[0].id)))
      else t
  }

  /** `logout`: forget the token, the saved workspace, the user, the list
      and the current workspace. */
  function SignOut(s: Session): (t: Session)
  {
    s.(storedToken := None, storedWorkspaceId := None, authHeader := None,
       user := None, workspaces := [], current := None)
  }

  /** The argument of `switchWorkspace`: a number, a string, a workspace
      object, or something that is none of these (null, undefined). */
  datatype SwitchTarget = ById(n: int) | ByText(text: string) | ByObject(w: WorkspaceEntry) | Nothing

  /** The message `switchWorkspace` shows. */
  datatype SwitchNotice = SwitchedTo(name: string) | WorkspaceNotFound | InvalidWorkspace

  datatype Switch = Switch(notice: SwitchNotice, state: Session)

  /** The workspace the argument denotes: for a number or a string, the
      first listed workspace with that id (`Number(arg)`); an object as it
      is. */
  function Resolve(ws: seq<WorkspaceEntry>, target: SwitchTarget): (r: Option<WorkspaceEntry>)
    ensures (target.ById? || target.ByText?) && r.Some? ==> r.value in ws
    ensures target.ById? ==> (r.None? <==> forall w :: w in ws ==> w.id != target.n)
    ensures target.ByText? ==> (r.None? <==> forall w :: w in ws ==> NumberOf(target.text) != Num(w.id))
  {
    match target
    case ById(n) => (var i := FindById(ws, Num(n)); if i.Some? then Some(ws[i.value]) else None)
    case ByText(text) => (var i := FindById(ws, NumberOf(text)); if i.Some? then Some(ws[i.value]) else None)
    case ByObject(w) => Some(w)
    case Nothing => None
  }

  /** `switchWorkspace`: an id (through `Number`) must name a listed
      workspace; the workspace must have a truthy id. On success it becomes
      current, its id is saved and, when signed in, sent as the workspace
      header. */
  function SwitchTo(s: Session, target: SwitchTarget): (r: Switch)
  {
    var found := Resolve(s.workspaces, target);
    if (target.ById? || target.ByText?) && found.None? then Switch(WorkspaceNotFound, s)
    else if found.None? || found.value.id == 0 then Switch(InvalidWorkspace, s)
    else
      var w := found.value;
      var t := s.(current := Some(w), storedWorkspaceId := Some(IntToString(w.id)));
      Switch(SwitchedTo(w.name), if s.authHeader.Some? then t.(workspaceHeader := Some(IntToString(w.id))) else t)
  }

  /** The effect run whenever the user or the current workspace changes:
      the workspace header carries the current workspace's id while someone
      is signed in with a current workspace, and is removed otherwise. */
  function SyncHeader(s: Session): (t: Session)
  {
    s.(workspaceHeader := if s.current.Some? && s.user.Some? then Some(IntToString(s.current.value.id)) else None)
  }

  // ---------------------------------------------------------------------
  // What the operations promise

  /** Loading always ends, whatever the server answers. */
  lemma LoadEnds(s: Session, response: MeResponse)
    ensures !Load(s, response).loading && Load(s, response).initialized
  {
  }

  /** Without a stored token nothing but the loading flags changes. */
  lemma LoadWithoutToken(s: Session, response: MeResponse)
    requires !Present(s.storedToken)
    ensures Load(s, response) == s.(loading := false, initialized := true)
  {
  }

  /** A failed load removes the token and the header and signs nobody in. */
  lemma LoadFailureForgetsToken(s: Session)
    requires Present(s.storedToken)
    ensures var t := Load(s, MeFailed);
      t.storedToken.None? && t.authHeader.None? && t.user == s.user && t.current == s.current
  {
  }

  /** A successful load signs the user in with the listed workspaces, and
      the current workspace is the one the selection rule picks: a listed
      one whenever the list is non-empty, the saved one when it is listed. */
  lemma LoadSelects(s: Session, u: int, list: Option<seq<WorkspaceEntry>>)
    requires Present(s.storedToken)
    ensures var t := Load(s, Me(u, list));
      var ws := if list.Some? then list.value else [];
      && t.user == Some(u) && t.workspaces == ws && t.storedToken == s.storedToken
      && t.authHeader == Some("Bearer " + s.storedToken.value)
      && (ws != [] ==> t.current.Some? && t.current.value in ws)
      && (ws == [] ==> t.current == s.current && t.storedWorkspaceId == s.storedWorkspaceId)
      && (forall w :: w in ws && Present(s.storedWorkspaceId) && ParseIntAutoRadix(s.storedWorkspaceId.value) == Num(w.id)
            ==> t.current.Some? && t.current.value.id == w.id && t.storedWorkspaceId == s.storedWorkspaceId)
      && (t.storedWorkspaceId != s.storedWorkspaceId ==> t.current == Some(ws[0]) && t.storedWorkspaceId == Some(IntToString(ws[0].id)))
  {
    var ws := if list.Some? then list.value else [];
    var r := SelectWorkspace(ws, s.storedWorkspaceId);
    if r.Restore? {
      var i :| 0 <= i < |ws| && ws[i] == r.w && forall j :: 0 <= j < i ==> ws[j].id != r.w.id;
    }
  }

  /** A successful sign-in signs the user in and makes the first listed
      workspace current; with no workspace listed the current one stays. */
  lemma SignInSelectsFirst(s: Session, token: string, u: int, list: Option<seq<WorkspaceEntry>>)
    ensures var t := SignIn(s, SignedIn(token, u, list));
      var ws := if list.Some? then list.value else [];
      && t.user == Some(u) && t.workspaces == ws && t.storedToken == Some(token) && !t.loading
      && (token != "" ==> t.authHeader == Some("Bearer " + token))
      && (ws != [] ==> t.current == Some(ws[0]) && t.storedWorkspaceId == Some(IntToString(ws[0].id)))
      && (ws == [] ==> t.current == s.current && t.storedWorkspaceId == s.storedWorkspaceId)
  {
  }

  /** A failed sign-in changes nothing but the loading flag. */
  lemma SignInFailureKeeps(s: Session, error: Option<string>)
    ensures SignIn(s, SignInFailed(error)) == s.(loading := false)
  {
  }

  /** The workspace a sign-in selects is the one the next page load
      restores, when the server lists the same workspaces again. */
  lemma SignInThenReload(s: Session, token: string, u: int, ws: seq<WorkspaceEntry>, v: int)
    requires ws != [] && DistinctIds(ws) && token != ""
    ensures var t := SignIn(s, SignedIn(token, u, Some(ws)));
      Load(Fresh(t.storedToken, t.storedWorkspaceId), Me(v, Some(ws))).current == t.current
  {
    SavedIdRestores(ws, ws[0]);
  }

  /** After logout nobody is signed in, nothing is kept in storage, no role
      is granted and the next load signs nobody in. */
  lemma SignOutForgets(s: Session, required: string, response: MeResponse)
    ensures var t := SignOut(s);
      && !IsAuthenticated(t) && t.current.None? && t.workspaces == []
      && t.storedToken.None? && t.storedWorkspaceId.None? && t.authHeader.None?
      && !HasWorkspaceRole(t, required)
      && SyncHeader(t).workspaceHeader.None?
      && !IsAuthenticated(Load(Fresh(t.storedToken, t.storedWorkspaceId), response))
  {
  }

  /** An id that names no listed workspace, or a target without a truthy
      id, leaves the session as it was. */
  lemma SwitchRejects(s: Session, target: SwitchTarget)
    requires || (target.ById? && forall w :: w in s.workspaces ==> w.id != target.n)
             || (target.ByText? && forall w :: w in s.workspaces ==> NumberOf(target.text) != Num(w.id))
             || (target.ByObject? && target.w.id == 0)
             || target.Nothing?
    ensures SwitchTo(s, target).state == s
    ensures SwitchTo(s, target).notice == (if target.ById? || target.ByText? then WorkspaceNotFound else InvalidWorkspace)
  {
  }

  /** A switch by id to a listed workspace makes it current and saves its
      id; the rest of the session stays, apart from the workspace header. */
  lemma SwitchById(s: Session, w: WorkspaceEntry)
    requires w in s.workspaces && DistinctIds(s.workspaces) && w.id != 0
    ensures var r := SwitchTo(s, ById(w.id));
      && r.notice == SwitchedTo(w.name)
      && r.state.current == Some(w) && r.state.storedWorkspaceId == Some(IntToString(w.id))
      && r.state.(current := s.current, storedWorkspaceId := s.storedWorkspaceId, workspaceHeader := s.workspaceHeader) == s
      && (s.authHeader.Some? ==> r.state.workspaceHeader == Some(IntToString(w.id)))
  {
  }

  /** A workspace object is taken as it is: the client does not check that
      it is one of the listed workspaces (the server's guard does). */
  lemma SwitchByObjectUnchecked(s: Session, w: WorkspaceEntry)
    requires w.id != 0
    ensures SwitchTo(s, ByObject(w)).state.current == Some(w)
  {
  }

  /** The workspace a switch selects is the one the next page load
      restores, when the server lists the same workspaces again. */
  lemma SwitchThenReload(s: Session, w: WorkspaceEntry, v: int)
    requires w in s.workspaces && DistinctIds(s.workspaces) && w.id != 0 && Present(s.storedToken)
    ensures var t := SwitchTo(s, ById(w.id)).state;
      Load(Fresh(t.storedToken, t.storedWorkspaceId), Me(v, Some(s.workspaces))).current == Some(w)
  {
    SwitchById(s, w);
    SavedIdRestores(s.workspaces, w);
  }

  /** The workspace header is sent exactly while someone is signed in with a
      current workspace, and the server's `parseInt` reads back that
      workspace's id. */
  lemma WorkspaceHeaderParses(s: Session)
    ensures SyncHeader(s).workspaceHeader.Some? <==> s.user.Some? && s.current.Some?
    ensures SyncHeader(s).workspaceHeader.Some? ==>
              Present(SyncHeader(s).workspaceHeader) &&
              ParseInt(SyncHeader(s).workspaceHeader.value) == Num(s.current.value.id)
  {
    if s.user.Some? && s.current.Some? {
      ParseIntOfIntToString(s.current.value.id);
    }
  }

  // ---------------------------------------------------------------------
  // The provider

  /** `AuthProvider`: React state, local storage and the default request
      headers, changed one step at a time as the source does. */
  class AuthProvider {
    var user: Option<int>
    var workspaces: seq<WorkspaceEntry>
    var current: Option<WorkspaceEntry>
    var loading: bool
    var initialized: bool
    var storedToken: Option<string>
    var storedWorkspaceId: Option<string>
    var authHeader: Option<string>
    var workspaceHeader: Option<string>

    function State(): Session
      reads this
    {
      Session(user, workspaces, current, loading, initialized, storedToken, storedWorkspaceId, authHeader, workspaceHeader)
    }

    constructor (token: Option<string>, workspaceId: Option<string>)
      ensures State() == Fresh(token, workspaceId)
    {
      user := None;
      workspaces := [];
      current := None;
      loading := true;
      initialized := false;
      storedToken := token;
      storedWorkspaceId := workspaceId;
      authHeader := None;
      workspaceHeader := None;
    }

    method LoadUser(response: MeResponse)
      modifies this
      ensures State() == Load(old(State()), response)
    {
      var token := storedToken;
      if Present(token) {
        authHeader := BearerHeader(token);
        match response
        case MeFailed =>
          storedToken := None;
          authHeader := BearerHeader(None);
        case Me(u, list) =>
          user := Some(u);
          var ws := if list.Some? then list.value else [];
          workspaces := ws;
          SelectCurrent(ws);
      }
      loading := false;
      initialized := true;
    }

    /** The workspace selection of `loadUser`: `find` the saved id among
        `ws`, else fall back to the first workspace and save its id. */
    method SelectCurrent(ws: seq<WorkspaceEntry>)
      modifies this
      ensures State() == Select(old(State()), SelectWorkspace(ws, old(storedWorkspaceId)))
    {
      match SelectWorkspace(ws, storedWorkspaceId)
      case Unchanged =>
      case Restore(w) =>
        current := Some(w);
      case Default(w) =>
        current := Some(w);
        storedWorkspaceId := Some(IntToString(w.id));
    }

    method Register(response: SignInResponse) returns (ok: bool)
      modifies this
      ensures ok == response.SignedIn?
      ensures State() == SignIn(old(State()), response)
    {
      ok := ApplySignIn(response);
    }

    method Login(response: SignInResponse) returns (ok: bool)
      modifies this
      ensures ok == response.SignedIn?
      ensures State() == SignIn(old(State()), response)
    {
      ok := ApplySignIn(response);
    }

    /** The body `register` and `login` share. */
    method ApplySignIn(response: SignInResponse) returns (ok: bool)
      modifies this
      ensures ok == response.SignedIn?
      ensures State() == SignIn(old(State()), response)
    {
      loading := true;
      match response
      case SignInFailed(_) =>
        loading := false;
        return false;
      case SignedIn(token, u, list) =>
        storedToken := Some(token);
        authHeader := BearerHeader(Some(token));
        user := Some(u);
        var ws := if list.Some? then list.value else [];
        workspaces := ws;
        if |ws| > 0 {
          current := Some(ws[0]);
          storedWorkspaceId := Some(IntToString(ws[0].id));
        }
        loading := false;
        return true;
    }

    method Logout()
      modifies this
      ensures State() == SignOut(old(State()))
    {
      storedToken := None;
      storedWorkspaceId := None;
      authHeader := BearerHeader(None);
      user := None;
      workspaces := [];
      current := None;
    }

    method SwitchWorkspace(target: SwitchTarget) returns (notice: SwitchNotice)
      modifies this
      ensures Switch(notice, State()) == SwitchTo(old(State()), target)
    {
      var workspace := Resolve(workspaces, target);
      if (target.ById? || target.ByText?) && workspace.None? {
        return WorkspaceNotFound;
      }
      if workspace.None? || workspace.value.id == 0 {
        return InvalidWorkspace;
      }
      var w := workspace.value;
      current := Some(w);
      storedWorkspaceId := Some(IntToString(w.id));
      if authHeader.Some? {
        workspaceHeader := Some(IntToString(w.id));
      }
      notice := SwitchedTo(w.name);
    }

    /** The effect on `[currentWorkspace, user]`. */
    method SyncWorkspaceHeader()
      modifies this
      ensures State() == SyncHeader(old(State()))
    {
      if current.Some? && user.Some? {
        workspaceHeader := Some(IntToString(current.value.id));
      } else {
        workspaceHeader := None;
      }
    }
  }
}
