/** The workspace routes: listing and reading workspaces, creating and
    renaming them, the membership table's add/remove/list operations, and the
    invitation workflow (issue, verify, accept). Each route that writes is a
    pure function from the store to an `Outcome`, and a handler method that
    performs the same queries one by one on the mutable store. */
module WorkspaceRoutes {
  import opened Outcomes
  import opened Roles
  import opened Js
  import opened Schema
  import opened AuthMiddleware
  import Store

  /** Seven days in milliseconds: the lifetime of an invitation. */
  const InvitationLifetime := 7 * 24 * 60 * 60 * 1000

  /** The hand-written test `userWorkspace && ['ADMIN', 'SUPER_ADMIN'].includes(role)`. */
  predicate IsAdminOf(memberships: map<(int, int), Role>, u: int, w: int) {
    (u, w) in memberships && IsAdminRole(memberships[(u, w)])
  }

  /** The admin test the membership routes write out by hand admits exactly
      whom the guard admits at ADMIN. */
  lemma {:induction false} AdminCheckIsGuard(memberships: map<(int, int), Role>, u: int, w: int)
    requires w != 0
    ensures IsAdminOf(memberships, u, w) <==> GuardDecision(memberships, u, Some(IntToString(w)), None, Admin).Ok?
  {
    HeaderRoundTrip(w);
    ParseIntOfIntToString(w);
    AdminCheckOnId(memberships, u, w, IntToString(w));
  }

  lemma AdminCheckOnId(memberships: map<(int, int), Role>, u: int, w: int, param: string)
    requires w != 0 && param != "" && ParseIntAutoRadix(param) == Num(w)
    ensures IsAdminOf(memberships, u, w) <==> GuardDecision(memberships, u, Some(param), None, Admin).Ok?
  {
    if (u, w) in memberships {
      AdminTestIsRankTest(memberships[(u, w)]);
    }
  }

  // ---------------------------------------------------------------------
  // Reading workspaces

  /** One entry of a user's workspace list. */
  datatype WorkspaceView = WorkspaceView(id: int, name: string, description: Option<string>, role: Role)

  /** `userWorkspace.findMany({ where: { userId } })` mapped to views: the
      format shared by `GET /workspaces`, login and `/auth/me`. */
  function MembershipList(s: DbState, user: int): map<int, WorkspaceView> {
    map w | w in s.workspaces && (user, w) in s.memberships ::
      WorkspaceView(w, s.workspaces[w].name, s.workspaces[w].description, s.memberships[(user, w)])
  }

  /** `GET /workspaces`: exactly the caller's memberships, each with its
      membership role. */
  function ListWorkspaces(s: DbState, caller: int): (r: map<int, WorkspaceView>)
    requires Consistent(s)
    ensures forall w :: w in r <==> (caller, w) in s.memberships
    ensures forall w :: w in r ==> r[w].id == w && r[w].role == s.memberships[(caller, w)] && r[w].name == s.workspaces[w].name
  {
    MembershipList(s, caller)
  }

  /** A workspace is listed exactly when the default guard would admit the
      caller to it. */
  lemma {:induction false} ListedIffGuardAdmits(s: DbState, caller: int, w: int)
    requires Consistent(s)
    ensures w in ListWorkspaces(s, caller) <==> GuardDecision(s.memberships, caller, Some(IntToString(w)), None, Role.User).Ok?
  {
    HeaderRoundTrip(w);
    ParseIntOfIntToString(w);
    ListedIffGuardAdmitsOn(s, caller, w, IntToString(w));
  }

  lemma ListedIffGuardAdmitsOn(s: DbState, caller: int, w: int, param: string)
    requires Consistent(s) && param != "" && ParseIntAutoRadix(param) == Num(w)
    ensures w in ListWorkspaces(s, caller) <==> GuardDecision(s.memberships, caller, Some(param), None, Role.User).Ok?
  {
    if (caller, w) in s.memberships {
      assert w in s.workspaces;
    }
  }

  datatype GameBrief = GameBrief(name: string, description: Option<string>)

  datatype WorkspaceDetail = WorkspaceDetail(
    id: int, name: string, description: Option<string>, role: Role, games: map<int, GameBrief>)

  /** `GET /workspaces/:workspaceId`: the workspace with the caller's role and
      its games, for members only. */
  function GetWorkspace(s: DbState, caller: int, param: string): (r: Result<WorkspaceDetail>)
    requires Consistent(s)
    ensures ParseIntAutoRadix(param).NaN? ==> r == Err(Internal)
    ensures r.Ok? <==> ParseIntAutoRadix(param).Num? && (caller, ParseIntAutoRadix(param).value) in s.memberships
    ensures ParseIntAutoRadix(param).Num? && !r.Ok? ==> r == Err(Forbidden("You do not have access to this workspace"))
    ensures r.Ok? ==>
      && r.value.id == ParseIntAutoRadix(param).value
      && r.value.role == s.memberships[(caller, r.value.id)]
      && (forall g :: g in r.value.games <==> g in s.games && s.games[g].workspaceId == r.value.id)
  {
    match ParseIntAutoRadix(param)
    case NaN => Err(Internal)
    case Num(w) =>
      if (caller, w) !in s.memberships then Err(Forbidden("You do not have access to this workspace"))
      else
        var games := map g | g in s.games && s.games[g].workspaceId == w :: GameBrief(s.games[g].name, s.games[g].description);
        Ok(WorkspaceDetail(w, s.workspaces[w].name, s.workspaces[w].description, s.memberships[(caller, w)], games))
  }

  // ---------------------------------------------------------------------
  // Creating and updating workspaces

  /** `POST /workspaces`: a non-empty name is required; the new workspace
      gets the caller as its ADMIN. */
  function CreateWorkspace(s: DbState, caller: int, name: Option<string>, description: Option<string>): (out: Outcome<int>)
    ensures !Present(name) ==> out == Outcome(Err(Invalid), s)
    ensures out.result.Ok? <==> Present(name)
    ensures out.result.Ok? ==>
      && out.result.value == s.nextId
      && out.state == s.(workspaces := s.workspaces[out.result.value := Workspace(name.value, description)],
                         memberships := s.memberships[(caller, out.result.value) := Admin],
                         nextId := s.nextId + 1)
  {
    if !Present(name) then Outcome(Err(Invalid), s)
    else
      var id := s.nextId;
      Outcome(Ok(id), s.(workspaces := s.workspaces[id := Workspace(name.value, description)],
                         memberships := s.memberships[(caller, id) := Admin],
                         nextId := id + 1))
  }

  lemma {:induction false} CreateWorkspaceConsistent(s: DbState, caller: int, name: Option<string>, description: Option<string>)
    requires Consistent(s) && caller in s.users
    ensures Consistent(CreateWorkspace(s, caller, name, description).state)
    ensures CreateWorkspace(s, caller, name, description).result.Ok? ==>
      && CreateWorkspace(s, caller, name, description).result.value !in s.workspaces
      && IsAdminOf(CreateWorkspace(s, caller, name, description).state.memberships, caller, CreateWorkspace(s, caller, name, description).result.value)
  {
    if Present(name) {
      AddWorkspaceConsistent(s, Workspace(name.value, description), caller, Admin, CreateWorkspace(s, caller, name, description).state);
    }
  }

  method HandleCreateWorkspace(db: Store.Db, caller: int, name: Option<string>, description: Option<string>)
    returns (r: Result<int>)
    modifies db
    ensures Outcome(r, db.tables) == CreateWorkspace(old(db.tables), caller, name, description)
  {
    if !Present(name) {
      return Err(Invalid);
    }
    var id := db.FreshId();
    db.tables := db.tables.(workspaces := db.tables.workspaces[id := Workspace(name.value, description)]);
    db.tables := db.tables.(memberships := db.tables.memberships[(caller, id) := Admin]);
    r := Ok(id);
  }

  /** `PUT /workspaces/:workspaceId`: admins only; a truthy name replaces the
      name, a description that is present (even null) replaces the
      description, and nothing else changes. */
  function UpdateWorkspace(s: DbState, caller: int, param: string, name: Option<string>,
                           description: Option<Option<string>>): (out: Outcome<Workspace>)
    requires MembershipsLinked(s.memberships, s.users, s.workspaces)
    ensures out.result.Err? ==> out.state == s
    ensures ParseIntAutoRadix(param).NaN? ==> out.result == Err(Internal)
    ensures out.result.Ok? <==> ParseIntAutoRadix(param).Num? && IsAdminOf(s.memberships, caller, ParseIntAutoRadix(param).value)
    ensures out.result.Ok? ==>
      var w := ParseIntAutoRadix(param).value;
      && w in s.workspaces
      && out.result.value.name == (if Present(name) then name.value else s.workspaces[w].name)
      && out.result.value.description == (if description.Some? then description.value else s.workspaces[w].description)
      && out.state == s.(workspaces := s.workspaces[w := out.result.value])
  {
    match ParseIntAutoRadix(param)
    case NaN => Outcome(Err(Internal), s)
    case Num(w) =>
      if !IsAdminOf(s.memberships, caller, w) then Outcome(Err(Forbidden("Only admins can update workspaces")), s)
      else
        var old_ := s.workspaces[w];
        var updated := Workspace(if Present(name) then name.value else old_.name,
                                 if description.Some? then description.value else old_.description);
        Outcome(Ok(updated), s.(workspaces := s.workspaces[w := updated]))
  }

  lemma UpdateWorkspaceConsistent(s: DbState, caller: int, param: string, name: Option<string>, description: Option<Option<string>>)
    requires Consistent(s)
    ensures Consistent(UpdateWorkspace(s, caller, param, name, description).state)
  {
  }

  method HandleUpdateWorkspace(db: Store.Db, caller: int, param: string, name: Option<string>,
                               description: Option<Option<string>>) returns (r: Result<Workspace>)
    requires MembershipsLinked(db.tables.memberships, db.tables.users, db.tables.workspaces)
    modifies db
    ensures Outcome(r, db.tables) == UpdateWorkspace(old(db.tables), caller, param, name, description)
  {
    var id := ParseIntAutoRadix(param);
    if id.NaN? {
      return Err(Internal);
    }
    var w := id.value;
    if (caller, w) !in db.tables.memberships || !IsAdminRole(db.tables.memberships[(caller, w)]) {
      return Err(Forbidden("Only admins can update workspaces"));
    }
    var current := db.tables.workspaces[w];
    var updated := current;
    if Present(name) {
      updated := updated.(name := name.value);
    }
    if description.Some? {
      updated := updated.(description := description.value);
    }
    db.tables := db.tables.(workspaces := db.tables.workspaces[w := updated]);
    r := Ok(updated);
  }

  // ---------------------------------------------------------------------
  // Membership table

  /** `body('role').isIn(['USER', 'ADMIN'])`: the roles the add route accepts. */
  function AddableRole(role: Option<string>): (r: Option<Role>)
    ensures r.Some? ==> r.value != SuperAdmin
    ensures r.Some? <==> role == Some("USER") || role == Some("ADMIN")
  {
    if role == Some("USER") then Some(Role.User)
    else if role == Some("ADMIN") then Some(Admin)
    else None
  }

  predicate ValidEmail(email: Option<string>) {
    email.Some? && IsEmail(email.value)
  }

  /** `POST /workspaces/:workspaceId/users`: validation (400), then the admin
      check (403), then the user lookup by email (404), then the duplicate
      check (400); otherwise exactly one membership row is added. */
  function AddMember(s: DbState, caller: int, param: string, email: Option<string>, role: Option<string>): (out: Outcome<()>)
    requires UniqueEmails(s.users)
    ensures out.result.Err? ==> out.state == s
    ensures !ValidEmail(email) || AddableRole(role).None? ==> out.result == Err(Invalid)
    ensures out.result.Ok? <==>
      && ValidEmail(email) && AddableRole(role).Some?
      && ParseIntAutoRadix(param).Num? && IsAdminOf(s.memberships, caller, ParseIntAutoRadix(param).value)
      && UserByEmail(s.users, email.value).Some?
      && (UserByEmail(s.users, email.value).value, ParseIntAutoRadix(param).value) !in s.memberships
    ensures out.result.Ok? ==>
      out.state == s.(memberships := s.memberships[(UserByEmail(s.users, email.value).value, ParseIntAutoRadix(param).value) := AddableRole(role).value])
  {
    if !ValidEmail(email) || AddableRole(role).None? then Outcome(Err(Invalid), s)
    else match ParseIntAutoRadix(param)
      case NaN => Outcome(Err(Internal), s)
      case Num(w) =>
        if !IsAdminOf(s.memberships, caller, w) then Outcome(Err(Forbidden("Only admins can add users to workspaces")), s)
        else match UserByEmail(s.users, email.value)
          case None => Outcome(Err(NotFound("User not found")), s)
          case Some(u) =>
            if (u, w) in s.memberships then Outcome(Err(BadRequest("User is already a member of this workspace")), s)
            else Outcome(Ok(()), s.(memberships := s.memberships[(u, w) := AddableRole(role).value]))
  }

  lemma AddMemberConsistent(s: DbState, caller: int, param: string, email: Option<string>, role: Option<string>)
    requires Consistent(s)
    ensures Consistent(AddMember(s, caller, param, email, role).state)
  {
    var out := AddMember(s, caller, param, email, role);
    if out.result.Ok? {
      var w := ParseIntAutoRadix(param).value;
      var u := UserByEmail(s.users, email.value).value;
      assert w in s.workspaces by {
        assert (caller, w) in s.memberships;
      }
      AddMembershipConsistent(s, u, w, AddableRole(role).value, out.state);
    }
  }

  method HandleAddMember(db: Store.Db, caller: int, param: string, email: Option<string>, role: Option<string>)
    returns (r: Result<()>)
    requires UniqueEmails(db.tables.users)
    modifies db
    ensures Outcome(r, db.tables) == AddMember(old(db.tables), caller, param, email, role)
  {
    var granted := AddableRole(role);
    if !ValidEmail(email) || granted.None? {
      return Err(Invalid);
    }
    var id := ParseIntAutoRadix(param);
    if id.NaN? {
      return Err(Internal);
    }
    var w := id.value;
    if (caller, w) !in db.tables.memberships || !IsAdminRole(db.tables.memberships[(caller, w)]) {
      return Err(Forbidden("Only admins can add users to workspaces"));
    }
    var userToAdd := UserByEmail(db.tables.users, email.value);
    if userToAdd.None? {
      return Err(NotFound("User not found"));
    }
    if (userToAdd.value, w) in db.tables.memberships {
      return Err(BadRequest("User is already a member of this workspace"));
    }
    db.tables := db.tables.(memberships := db.tables.memberships[(userToAdd.value, w) := granted.value]);
    r := Ok(());
  }

  /** `DELETE /workspaces/:workspaceId/users/:userId`: admins only; an admin
      removing themself is refused while the workspace has at most one
      ADMIN/SUPER_ADMIN; a missing row is a store error. */
  function RemoveMember(s: DbState, caller: int, workspaceParam: string, userParam: string): (out: Outcome<()>)
    ensures out.result.Err? ==> out.state == s
    ensures out.result.Ok? <==>
      && ParseIntAutoRadix(workspaceParam).Num? && IsAdminOf(s.memberships, caller, ParseIntAutoRadix(workspaceParam).value)
      && ParseIntAutoRadix(userParam).Num?
      && (ParseIntAutoRadix(userParam).value, ParseIntAutoRadix(workspaceParam).value) in s.memberships
      && (ParseIntAutoRadix(userParam).value == caller ==> |AdminsOf(s.memberships, ParseIntAutoRadix(workspaceParam).value)| > 1)
    ensures out.result.Ok? ==>
      out.state == s.(memberships := s.memberships - {(ParseIntAutoRadix(userParam).value, ParseIntAutoRadix(workspaceParam).value)})
  {
    match ParseIntAutoRadix(workspaceParam)
    case NaN => Outcome(Err(Internal), s)
    case Num(w) =>
      if !IsAdminOf(s.memberships, caller, w) then Outcome(Err(Forbidden("Only admins can remove users from workspaces")), s)
      else if ParseIntAutoRadix(userParam) == Num(caller) && |AdminsOf(s.memberships, w)| <= 1 then
        Outcome(Err(BadRequest("Cannot remove the last admin from a workspace")), s)
      else match ParseIntAutoRadix(userParam)
        case NaN => Outcome(Err(Internal), s)
        case Num(u) =>
          if (u, w) !in s.memberships then Outcome(Err(Internal), s)
          else Outcome(Ok(()), s.(memberships := s.memberships - {(u, w)}))
  }

  /** Every removal leaves every workspace with an admin: an admin removing
      someone else stays, and one removing themself leaves another behind. */
  lemma {:induction false} RemoveMemberConsistent(s: DbState, caller: int, workspaceParam: string, userParam: string)
    requires Consistent(s)
    ensures Consistent(RemoveMember(s, caller, workspaceParam, userParam).state)
  {
    var out := RemoveMember(s, caller, workspaceParam, userParam);
    if out.result.Ok? {
      var w := ParseIntAutoRadix(workspaceParam).value;
      var u := ParseIntAutoRadix(userParam).value;
      var m := s.memberships;
      var m' := m - {(u, w)};
      assert out.state == s.(memberships := m');
      forall v | v in s.workspaces ensures HasAdmin(m', v) {
        if v == w {
          if u == caller {
            var admins := AdminsOf(m, w);
            var other := AnotherElement(admins, caller);
            assert (other, w) in m' && IsAdminRole(m'[(other, w)]);
          } else {
            assert (caller, w) in m' && IsAdminRole(m'[(caller, w)]);
          }
        } else {
          assert HasAdmin(m, v);
          var a :| (a, v) in m && IsAdminRole(m[(a, v)]);
          assert (a, v) in m' && m'[(a, v)] == m[(a, v)];
        }
      }
      assert MembershipsLinked(m', s.users, s.workspaces);
      assert Linked(out.state);
    }
  }

  method HandleRemoveMember(db: Store.Db, caller: int, workspaceParam: string, userParam: string)
    returns (r: Result<()>)
    modifies db
    ensures Outcome(r, db.tables) == RemoveMember(old(db.tables), caller, workspaceParam, userParam)
  {
    var id := ParseIntAutoRadix(workspaceParam);
    if id.NaN? {
      return Err(Internal);
    }
    var w := id.value;
    if (caller, w) !in db.tables.memberships || !IsAdminRole(db.tables.memberships[(caller, w)]) {
      return Err(Forbidden("Only admins can remove users from workspaces"));
    }
    var target := ParseIntAutoRadix(userParam);
    if target == Num(caller) {
      var adminCount := |AdminsOf(db.tables.memberships, w)|;
      if adminCount <= 1 {
        return Err(BadRequest("Cannot remove the last admin from a workspace"));
      }
    }
    if target.NaN? || (target.value, w) !in db.tables.memberships {
      return Err(Internal);
    }
    db.tables := db.tables.(memberships := db.tables.memberships - {(target.value, w)});
    r := Ok(());
  }

  datatype MemberView = MemberView(id: int, name: string, email: string, globalRole: Role, workspaceRole: Role)

  /** `GET /workspaces/:workspaceId/users`: for members only, every member
      of the workspace with both roles. */
  function ListMembers(s: DbState, caller: int, param: string): (r: Result<map<int, MemberView>>)
    requires Consistent(s)
    ensures ParseIntAutoRadix(param).NaN? ==> r == Err(Internal)
    ensures r.Ok? <==> ParseIntAutoRadix(param).Num? && (caller, ParseIntAutoRadix(param).value) in s.memberships
    ensures r.Ok? ==>
      var w := ParseIntAutoRadix(param).value;
      && caller in r.value
      && (forall u :: u in r.value <==> (u, w) in s.memberships)
      && (forall u :: u in r.value ==> r.value[u].workspaceRole == s.memberships[(u, w)] && r.value[u].email == s.users[u].email)
  {
    match ParseIntAutoRadix(param)
    case NaN => Err(Internal)
    case Num(w) =>
      if (caller, w) !in s.memberships then Err(Forbidden("You do not have access to this workspace"))
      else Ok(map u | u in s.users && (u, w) in s.memberships ::
                MemberView(u, s.users[u].name, s.users[u].email, s.users[u].globalRole, s.memberships[(u, w)]))
  }

  // ---------------------------------------------------------------------
  // Invitations

  datatype InviteResult = AddedExisting | Invited(invitationUrl: string)

  /** The tokens `crypto.randomBytes(20).toString('hex')` produces: 40
      lower-case hexadecimal characters. */
  predicate IsInvitationToken(token: string) {
    |token| == 40 && forall i :: 0 <= i < |token| ==> IsDigit(token[i]) || 'a' <= token[i] <= 'f'
  }

  /** `POST /workspaces/:workspaceId/invite`. The role is not validated here:
      any stored role, SUPER_ADMIN included, can be granted; a string that is
      not a role is refused by the store. An email that already has an account
      gets the membership at once and no invitation; any other email gets an
      invitation under the fresh token, valid for seven days from `now`. */
  function Invite(s: DbState, caller: int, param: string, email: Option<string>, role: Option<string>,
                  token: string, now: int): (out: Outcome<InviteResult>)
    requires UniqueEmails(s.users) && IsInvitationToken(token)
    ensures out.result.Err? ==> out.state == s
    ensures ParseIntAutoRadix(param).Num? && !IsAdminOf(s.memberships, caller, ParseIntAutoRadix(param).value) ==>
      out.result == Err(Forbidden("Only admins can invite users to workspaces"))
    ensures out.result == Ok(AddedExisting) ==>
      && ParseIntAutoRadix(param).Num? && email.Some? && role.Some? && ParseRole(role.value).Some?
      && UserByEmail(s.users, email.value).Some?
      && out.state == s.(memberships := s.memberships[(UserByEmail(s.users, email.value).value, ParseIntAutoRadix(param).value) := ParseRole(role.value).value])
    ensures out.result.Ok? && out.result.value.Invited? ==>
      && ParseIntAutoRadix(param).Num? && email.Some? && role.Some? && ParseRole(role.value).Some?
      && UserByEmail(s.users, email.value).None? && token !in s.invitations
      && out.result.value.invitationUrl == "http://localhost:3000/invitations/" + token
      && out.state == s.(invitations := s.invitations[token :=
           Invitation(email.value, ParseIntAutoRadix(param).value, ParseRole(role.value).value, now + InvitationLifetime, false, caller)])
  {
    match ParseIntAutoRadix(param)
    case NaN => Outcome(Err(Internal), s)
    case Num(w) =>
      if !IsAdminOf(s.memberships, caller, w) then Outcome(Err(Forbidden("Only admins can invite users to workspaces")), s)
      else if email.None? then Outcome(Err(Internal), s)
      else match UserByEmail(s.users, email.value)
        case Some(u) =>
          if (u, w) in s.memberships then Outcome(Err(BadRequest("User is already a member of this workspace")), s)
          else if role.None? || ParseRole(role.value).None? then Outcome(Err(Internal), s)
          else Outcome(Ok(AddedExisting), s.(memberships := s.memberships[(u, w) := ParseRole(role.value).value]))
        case None =>
          if token in s.invitations || role.None? || ParseRole(role.value).None? then Outcome(Err(Internal), s)
          else
            var invitation := Invitation(email.value, w, ParseRole(role.value).value, now + InvitationLifetime, false, caller);
            Outcome(Ok(Invited("http://localhost:3000/invitations/" + token)), s.(invitations := s.invitations[token := invitation]))
  }

  /** When inviting succeeds, and when it answers that the user is already a
      member: an admin inviting with an email and a stored role succeeds
      unless the email's account already belongs to the workspace (400) or,
      for an email without an account, the token is already in use. */
  lemma InviteOutcome(s: DbState, caller: int, param: string, email: Option<string>, role: Option<string>,
                          token: string, now: int)
    requires UniqueEmails(s.users) && IsInvitationToken(token)
    ensures Invite(s, caller, param, email, role, token, now).result == Err(BadRequest("User is already a member of this workspace")) <==>
      && ParseIntAutoRadix(param).Num? && IsAdminOf(s.memberships, caller, ParseIntAutoRadix(param).value)
      && email.Some? && UserByEmail(s.users, email.value).Some?
      && (UserByEmail(s.users, email.value).value, ParseIntAutoRadix(param).value) in s.memberships
    ensures Invite(s, caller, param, email, role, token, now).result.Ok? <==>
      && ParseIntAutoRadix(param).Num? && IsAdminOf(s.memberships, caller, ParseIntAutoRadix(param).value)
      && email.Some? && role.Some? && ParseRole(role.value).Some?
      && (UserByEmail(s.users, email.value).Some? ==>
            (UserByEmail(s.users, email.value).value, ParseIntAutoRadix(param).value) !in s.memberships)
      && (UserByEmail(s.users, email.value).None? ==> token !in s.invitations)
  {
  }

  lemma InviteConsistent(s: DbState, caller: int, param: string, email: Option<string>, role: Option<string>, token: string, now: int)
    requires Consistent(s) && IsInvitationToken(token) && caller in s.users
    ensures Consistent(Invite(s, caller, param, email, role, token, now).state)
  {
    match ParseIntAutoRadix(param)
    case NaN =>
    case Num(w) =>
      if IsAdminOf(s.memberships, caller, w) && email.Some? && role.Some? && ParseRole(role.value).Some? {
        assert w in s.workspaces by {
          assert (caller, w) in s.memberships;
        }
        var granted := ParseRole(role.value).value;
        match UserByEmail(s.users, email.value)
        case Some(u) =>
          if (u, w) !in s.memberships {
            AddMembershipConsistent(s, u, w, granted, Invite(s, caller, param, email, role, token, now).state);
          }
        case None =>
          if token !in s.invitations {
            SetInvitationConsistent(s, token, Invitation(email.value, w, granted, now + InvitationLifetime, false, caller),
                                    Invite(s, caller, param, email, role, token, now).state);
          }
      }
  }

  /** Unlike the add route, the invite route can make an existing user a
      SUPER_ADMIN of the workspace. */
  lemma InviteCanGrantSuperAdmin(s: DbState, caller: int, w: int, u: int, token: string, now: int)
    requires Consistent(s) && IsInvitationToken(token)
    requires IsAdminOf(s.memberships, caller, w) && u in s.users && (u, w) !in s.memberships
    ensures AddableRole(Some("SUPER_ADMIN")).None?
    ensures
      var t := Invite(s, caller, IntToString(w), Some(s.users[u].email), Some("SUPER_ADMIN"), token, now).state;
      (u, w) in t.memberships && t.memberships[(u, w)] == SuperAdmin
  {
    ParseIntOfIntToString(w);
    assert UserByEmail(s.users, s.users[u].email) == Some(u);
  }

  method HandleInvite(db: Store.Db, caller: int, param: string, email: Option<string>, role: Option<string>,
                      token: string, now: int) returns (r: Result<InviteResult>)
    requires UniqueEmails(db.tables.users) && IsInvitationToken(token)
    modifies db
    ensures Outcome(r, db.tables) == Invite(old(db.tables), caller, param, email, role, token, now)
  {
    var id := ParseIntAutoRadix(param);
    if id.NaN? {
      return Err(Internal);
    }
    var w := id.value;
    if (caller, w) !in db.tables.memberships || !IsAdminRole(db.tables.memberships[(caller, w)]) {
      return Err(Forbidden("Only admins can invite users to workspaces"));
    }
    if email.None? {
      return Err(Internal);
    }
    var existingUser := UserByEmail(db.tables.users, email.value);
    if existingUser.Some? {
      if (existingUser.value, w) in db.tables.memberships {
        return Err(BadRequest("User is already a member of this workspace"));
      }
      if role.None? || ParseRole(role.value).None? {
        return Err(Internal);
      }
      db.tables := db.tables.(memberships := db.tables.memberships[(existingUser.value, w) := ParseRole(role.value).value]);
      return Ok(AddedExisting);
    }
    var expiresAt := now + InvitationLifetime;
    if token in db.tables.invitations || role.None? || ParseRole(role.value).None? {
      return Err(Internal);
    }
    db.tables := db.tables.(invitations := db.tables.invitations[token := Invitation(email.value, w, ParseRole(role.value).value, expiresAt, false, caller)]);
    r := Ok(Invited("http://localhost:3000/invitations/" + token));
  }

  /** The checks verify and accept share, in their order: unknown token (404),
      expired (400), already used (400). An invitation whose `expiresAt`
      equals `now` is still valid. */
  function CheckInvitation(invitations: map<string, Invitation>, token: string, now: int): (r: Result<Invitation>)
    ensures token !in invitations ==> r == Err(NotFound("Invalid or expired invitation"))
    ensures token in invitations && invitations[token].expiresAt < now ==> r == Err(BadRequest("Invitation has expired"))
    ensures r.Ok? <==> token in invitations && now <= invitations[token].expiresAt && !invitations[token].used
    ensures r.Ok? ==> r.value == invitations[token]
  {
    if token !in invitations then Err(NotFound("Invalid or expired invitation"))
    else if invitations[token].expiresAt < now then Err(BadRequest("Invitation has expired"))
    else if invitations[token].used then Err(BadRequest("Invitation has already been used"))
    else Ok(invitations[token])
  }

  /** A used invitation is refused at every later time. */
  lemma UsedInvitationRefused(invitations: map<string, Invitation>, token: string, now: int)
    requires token in invitations && invitations[token].used
    ensures CheckInvitation(invitations, token, now).Err?
    ensures now <= invitations[token].expiresAt ==> CheckInvitation(invitations, token, now) == Err(BadRequest("Invitation has already been used"))
  {
  }

  /** What verifying an invitation reveals: never the token. */
  datatype InvitationView = InvitationView(email: string, workspaceName: string, role: Role)

  /** `GET /workspaces/invitations/:token`. */
  function VerifyInvitation(s: DbState, token: string, now: int): (r: Result<InvitationView>)
    requires Consistent(s)
    ensures r.Ok? <==> CheckInvitation(s.invitations, token, now).Ok?
    ensures r.Err? ==> r == Err(CheckInvitation(s.invitations, token, now).error)
    ensures r.Ok? ==>
      var invitation := s.invitations[token];
      r.value == InvitationView(invitation.email, s.workspaces[invitation.workspaceId].name, invitation.role)
  {
    match CheckInvitation(s.invitations, token, now)
    case Err(e) => Err(e)
    case Ok(invitation) => Ok(InvitationView(invitation.email, s.workspaces[invitation.workspaceId].name, invitation.role))
  }

  /** `POST /workspaces/invitations/:token/accept`: name and password are
      required and the password needs six UTF-16 code units (400, before any
      lookup); then the invitation checks; then an account with the invited
      email is refused (400). Otherwise one USER account is created with the
      membership the invitation grants, the invitation is marked used, and a
      token with the claims `{ user: { id } }` is signed for the new user.
      `credential` is the password hash. */
  function AcceptInvitation(s: DbState, token: string, name: Option<string>, password: Option<string>,
                            credential: string, now: int): (out: Outcome<Claims>)
    requires UniqueEmails(s.users)
    ensures out.result.Err? ==> out.state == s
    ensures !Present(name) || !Present(password) ==> out.result == Err(BadRequest("Name and password are required"))
    ensures Present(name) && Present(password) && Utf16Length(password.value) < 6 ==>
      out.result == Err(BadRequest("Password must be at least 6 characters"))
    ensures out.result.Ok? <==>
      && Present(name) && Present(password) && Utf16Length(password.value) >= 6
      && CheckInvitation(s.invitations, token, now).Ok?
      && UserByEmail(s.users, s.invitations[token].email).None?
    ensures out.result.Ok? ==>
      var invitation := s.invitations[token];
      var id := s.nextId;
      && out.result.value == NestedUserClaim(id)
      && out.state == s.(users := s.users[id := Schema.User(invitation.email, credential, name.value, Role.User)],
                         memberships := s.memberships[(id, invitation.workspaceId) := invitation.role],
                         invitations := s.invitations[token := invitation.(used := true)],
                         nextId := id + 1)
  {
    if !Present(name) || !Present(password) then Outcome(Err(BadRequest("Name and password are required")), s)
    else if Utf16Length(password.value) < 6 then Outcome(Err(BadRequest("Password must be at least 6 characters")), s)
    else match CheckInvitation(s.invitations, token, now)
      case Err(e) => Outcome(Err(e), s)
      case Ok(invitation) =>
        if UserByEmail(s.users, invitation.email).Some? then Outcome(Err(BadRequest("User with this email already exists")), s)
        else
          var id := s.nextId;
          Outcome(Ok(NestedUserClaim(id)),
                  s.(users := s.users[id := Schema.User(invitation.email, credential, name.value, Role.User)],
                     memberships := s.memberships[(id, invitation.workspaceId) := invitation.role],
                     invitations := s.invitations[token := invitation.(used := true)],
                     nextId := id + 1))
  }

  /** The token a successful acceptance returns never authenticates, not
      even as the account the acceptance has just created. */
  lemma AcceptTokenAsWrittenRejected(s: DbState, token: string, name: Option<string>, password: Option<string>,
                                     credential: string, now: int)
    requires UniqueEmails(s.users)
    requires AcceptInvitation(s, token, name, password, credential, now).result.Ok?
    ensures
      var out := AcceptInvitation(s, token, name, password, credential, now);
      && s.nextId in out.state.users
      && Authenticate(out.state.users, out.result.value).Err?
  {
  }

  /** Acceptance as evidently intended: the same checks and the same writes,
      but the token carries `{ userId }`, the claims registration and login
      sign. */
  function AcceptInvitationIntended(s: DbState, token: string, name: Option<string>, password: Option<string>,
                                    credential: string, now: int): (out: Outcome<Claims>)
    requires UniqueEmails(s.users)
    ensures out.state == AcceptInvitation(s, token, name, password, credential, now).state
    ensures out.result.Err? <==> AcceptInvitation(s, token, name, password, credential, now).result.Err?
    ensures out.result.Err? ==> out.result == AcceptInvitation(s, token, name, password, credential, now).result
  {
    var written := AcceptInvitation(s, token, name, password, credential, now);
    if written.result.Err? then written
    else Outcome(Ok(UserIdClaim(s.nextId)), written.state)
  }

  /** The corrected token authenticates as the account the acceptance has
      just created, with the invited email and the name given. */
  lemma AcceptTokenAuthenticates(s: DbState, token: string, name: Option<string>, password: Option<string>,
                                 credential: string, now: int)
    requires UniqueEmails(s.users)
    requires AcceptInvitationIntended(s, token, name, password, credential, now).result.Ok?
    ensures
      var out := AcceptInvitationIntended(s, token, name, password, credential, now);
      && s.nextId in out.state.users
      && out.state.users[s.nextId].email == s.invitations[token].email
      && out.state.users[s.nextId].name == name.value
      && Authenticate(out.state.users, out.result.value) == Ok(Public(s.nextId, out.state.users[s.nextId]))
  {
  }

  /** A password of three emoji is six code units long, so it passes the
      length check although it is only three characters. */
  lemma AcceptCountsCodeUnits(s: DbState, token: string, name: string, credential: string, now: int)
    requires UniqueEmails(s.users) && name != ""
    ensures AcceptInvitation(s, token, Some(name), Some("\U{1F600}\U{1F600}\U{1F600}"), credential, now).result
      != Err(BadRequest("Password must be at least 6 characters"))
  {
    ThreeEmojiAreSixUnits();
  }

  lemma {:induction false} AcceptInvitationConsistent(s: DbState, token: string, name: Option<string>, password: Option<string>,
                                                     credential: string, now: int)
    requires Consistent(s)
    ensures Consistent(AcceptInvitation(s, token, name, password, credential, now).state)
  {
    var out := AcceptInvitation(s, token, name, password, credential, now);
    if out.result.Ok? {
      AcceptedConsistent(s, token, Schema.User(s.invitations[token].email, credential, name.value, Role.User), out.state);
    }
  }

  /** The three writes of a successful acceptance keep the tables consistent. */
  lemma AcceptedConsistent(s: DbState, token: string, user: Schema.User, t: DbState)
    requires Consistent(s) && token in s.invitations
    requires UserByEmail(s.users, user.email).None?
    requires
      var invitation := s.invitations[token];
      var id := s.nextId;
      t == s.(users := s.users[id := user],
              memberships := s.memberships[(id, invitation.workspaceId) := invitation.role],
              invitations := s.invitations[token := invitation.(used := true)],
              nextId := id + 1)
    ensures Consistent(t)
  {
    var invitation := s.invitations[token];
    var id := s.nextId;
    var s1 := s.(users := s.users[id := user], nextId := id + 1);
    AddUserConsistent(s, user, s1);
    assert (id, invitation.workspaceId) !in s1.memberships by {
      assert id !in s.users;
    }
    var s2 := s1.(memberships := s1.memberships[(id, invitation.workspaceId) := invitation.role]);
    AddMembershipConsistent(s1, id, invitation.workspaceId, invitation.role, s2);
    SetInvitationConsistent(s2, token, invitation.(used := true), t);
  }

  /** Acceptance is single-use: once an acceptance has succeeded, accepting
      the same token again fails and changes nothing, whatever is sent. */
  lemma {:induction false} AcceptIsSingleUse(s: DbState, token: string, name: Option<string>, password: Option<string>,
                                            credential: string, now: int,
                                            name2: Option<string>, password2: Option<string>, credential2: string, later: int)
    requires Consistent(s)
    requires AcceptInvitation(s, token, name, password, credential, now).result.Ok?
    ensures
      var t := AcceptInvitation(s, token, name, password, credential, now).state;
      && Consistent(t)
      && AcceptInvitation(t, token, name2, password2, credential2, later).result.Err?
      && AcceptInvitation(t, token, name2, password2, credential2, later).state == t
  {
    var t := AcceptInvitation(s, token, name, password, credential, now).state;
    AcceptInvitationConsistent(s, token, name, password, credential, now);
    UsedInvitationRefused(t.invitations, token, later);
  }

  method HandleAcceptInvitation(db: Store.Db, token: string, name: Option<string>, password: Option<string>,
                                credential: string, now: int) returns (r: Result<Claims>)
    requires UniqueEmails(db.tables.users)
    modifies db
    ensures Outcome(r, db.tables) == AcceptInvitation(old(db.tables), token, name, password, credential, now)
  {
    if !Present(name) || !Present(password) {
      return Err(BadRequest("Name and password are required"));
    }
    if Utf16Length(password.value) < 6 {
      return Err(BadRequest("Password must be at least 6 characters"));
    }
    var checked := CheckInvitation(db.tables.invitations, token, now);
    if checked.Err? {
      return Err(checked.error);
    }
    var invitation := checked.value;
    if UserByEmail(db.tables.users, invitation.email).Some? {
      return Err(BadRequest("User with this email already exists"));
    }
    ghost var s := db.tables;
    var id := db.FreshId();
    var user := Schema.User(invitation.email, credential, name.value, Role.User);
    db.tables := db.tables.(users := db.tables.users[id := user]);
    db.tables := db.tables.(memberships := db.tables.memberships[(id, invitation.workspaceId) := invitation.role]);
    db.tables := db.tables.(invitations := db.tables.invitations[token := invitation.(used := true)]);
    r := Ok(NestedUserClaim(id));
    assert db.tables == s.(users := s.users[id := user],
                            memberships := s.memberships[(id, invitation.workspaceId) := invitation.role],
                            invitations := s.invitations[token := invitation.(used := true)],
                            nextId := id + 1);
  }
}
