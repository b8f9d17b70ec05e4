/** The account routes: registration, login and `/auth/me`. Password hashing
    and comparison are outside the model: registration receives the hash as
    `credential`, and login receives bcrypt's comparison as `matches`. */
module AuthRoutes {
  import opened Outcomes
  import opened Roles
  import opened Js
  import opened Schema
  import opened AuthMiddleware
  import opened WorkspaceRoutes
  import Store

  const DefaultWorkspace := Workspace("Default Workspace", Some("Default workspace created automatically"))

  /** The body of a 201 from `POST /auth/register`: the user without its
      password and the token. It carries no workspace list. */
  datatype Registration = Registration(user: PublicUser, claims: Claims)

  /** The body validation of registration: a valid email, a password of at
      least six characters and a non-empty name. */
  predicate RegistrationValid(email: Option<string>, password: Option<string>, name: Option<string>) {
    ValidEmail(email) && password.Some? && |password.value| >= 6 && Present(name)
  }

  /** The writes of a registration that passed validation: the account under
      the next id; then, when the store counts exactly one account after that
      insert, a default workspace with the new user as its SUPER_ADMIN. */
  function AddAccount(s: DbState, user: User): (t: DbState)
    ensures t.users == s.users[s.nextId := user]
    ensures |t.users| != 1 ==> t == s.(users := s.users[s.nextId := user], nextId := s.nextId + 1)
    ensures |t.users| == 1 ==>
      t == s.(users := s.users[s.nextId := user],
              workspaces := s.workspaces[s.nextId + 1 := DefaultWorkspace],
              memberships := s.memberships[(s.nextId, s.nextId + 1) := SuperAdmin],
              nextId := s.nextId + 2)
  {
    var id := s.nextId;
    var created := s.(users := s.users[id := user], nextId := id + 1);
    if |created.users| == 1 then
      var w := created.nextId;
      created.(workspaces := created.workspaces[w := DefaultWorkspace],
               memberships := created.memberships[(id, w) := SuperAdmin],
               nextId := w + 1)
    else created
  }

  /** `POST /auth/register`. Invalid input is refused (400) and so is a taken
      email; otherwise the account is created with the global role USER and
      the hash of the password, and the answer carries the new user and its
      token. */
  function Register(s: DbState, email: Option<string>, password: Option<string>, name: Option<string>,
                    credential: string): (out: Outcome<Registration>)
    requires UniqueEmails(s.users)
    ensures !RegistrationValid(email, password, name) ==> out == Outcome(Err(Invalid), s)
    ensures RegistrationValid(email, password, name) && UserByEmail(s.users, email.value).Some? ==>
      out == Outcome(Err(BadRequest("User already exists")), s)
    ensures RegistrationValid(email, password, name) && UserByEmail(s.users, email.value).None? ==>
      var user := Schema.User(email.value, credential, name.value, Role.User);
      && out.result == Ok(Registration(Public(s.nextId, user), UserIdClaim(s.nextId)))
      && out.state == AddAccount(s, user)
  {
    if !RegistrationValid(email, password, name) then Outcome(Err(Invalid), s)
    else if UserByEmail(s.users, email.value).Some? then Outcome(Err(BadRequest("User already exists")), s)
    else
      var user := Schema.User(email.value, credential, name.value, Role.User);
      Outcome(Ok(Registration(Public(s.nextId, user), UserIdClaim(s.nextId))), AddAccount(s, user))
  }

  /** In a consistent store the id the next account gets is not taken and
      belongs to no membership, so the new account is the only one exactly
      when the store had none. */
  lemma FreshAccount(s: DbState, user: User)
    requires IdsBelow(s.users.Keys, s.nextId) && MembershipsLinked(s.memberships, s.users, s.workspaces)
    ensures s.nextId !in s.users && |s.users[s.nextId := user]| == |s.users| + 1
    ensures forall w :: (s.nextId, w) !in s.memberships
  {
    assert s.nextId !in s.users;
  }

  /** The writes of the first registration (the account, then the default
      workspace with its SUPER_ADMIN) keep the store consistent. */
  lemma {:induction false} FirstAccountConsistent(s: DbState, user: User, t: DbState)
    requires Consistent(s) && forall v :: v in s.users ==> s.users[v].email != user.email
    requires t == s.(users := s.users[s.nextId := user],
                     workspaces := s.workspaces[s.nextId + 1 := DefaultWorkspace],
                     memberships := s.memberships[(s.nextId, s.nextId + 1) := SuperAdmin],
                     nextId := s.nextId + 2)
    ensures Consistent(t)
  {
    var created := s.(users := s.users[s.nextId := user], nextId := s.nextId + 1);
    AddUserConsistent(s, user, created);
    AddWorkspaceConsistent(created, DefaultWorkspace, s.nextId, SuperAdmin, t);
  }

  /** The writes of a registration keep the store consistent when the email
      is not taken. */
  lemma {:induction false} AddAccountConsistent(s: DbState, user: User)
    requires Consistent(s) && forall v :: v in s.users ==> s.users[v].email != user.email
    ensures Consistent(AddAccount(s, user))
  {
    var t := AddAccount(s, user);
    FreshAccount(s, user);
    if |s.users| == 0 {
      FirstAccountConsistent(s, user, t);
    } else {
      AddUserConsistent(s, user, t);
    }
  }

  /** Registration keeps the store consistent. */
  lemma {:induction false} RegisterConsistent(s: DbState, email: Option<string>, password: Option<string>, name: Option<string>,
                                              credential: string)
    requires Consistent(s)
    ensures Consistent(Register(s, email, password, name, credential).state)
  {
    if RegistrationValid(email, password, name) && UserByEmail(s.users, email.value).None? {
      AddAccountConsistent(s, Schema.User(email.value, credential, name.value, Role.User));
    }
  }

  /** The first account of an empty store gets a workspace of which it is
      SUPER_ADMIN; an account added when others exist starts with no
      workspace at all. It needs only the parts of `Consistent` that speak
      of accounts and memberships. */
  lemma {:induction false} FirstUserOwnsDefaultWorkspace(s: DbState, user: User)
    requires IdsBelow(s.users.Keys, s.nextId) && MembershipsLinked(s.memberships, s.users, s.workspaces)
    ensures
      var t := AddAccount(s, user);
      var id := s.nextId;
      && (|s.users| == 0 ==>
            && (id, id + 1) in t.memberships && t.memberships[(id, id + 1)] == SuperAdmin
            && t.workspaces[id + 1] == DefaultWorkspace)
      && (|s.users| != 0 ==> forall w :: (id, w) !in t.memberships)
  {
    FreshAccount(s, user);
    var t := AddAccount(s, user);
    if |s.users| != 0 {
      assert t.memberships == s.memberships;
    }
  }

  method HandleRegister(db: Store.Db, email: Option<string>, password: Option<string>, name: Option<string>,
                        credential: string) returns (r: Result<Registration>)
    requires UniqueEmails(db.tables.users)
    modifies db
    ensures Outcome(r, db.tables) == Register(old(db.tables), email, password, name, credential)
  {
    if !RegistrationValid(email, password, name) {
      return Err(Invalid);
    }
    if UserByEmail(db.tables.users, email.value).Some? {
      return Err(BadRequest("User already exists"));
    }
    var id := db.FreshId();
    var user := Schema.User(email.value, credential, name.value, Role.User);
    db.tables := db.tables.(users := db.tables.users[id := user]);
    var usersCount := |db.tables.users|;
    if usersCount == 1 {
      var w := db.FreshId();
      db.tables := db.tables.(workspaces := db.tables.workspaces[w := DefaultWorkspace]);
      db.tables := db.tables.(memberships := db.tables.memberships[(id, w) := SuperAdmin]);
    }
    r := Ok(Registration(Public(id, user), UserIdClaim(id)));
  }

  /** What login and `/auth/me` answer: the user without its password and
      its workspaces with the membership roles. */
  datatype Profile = Profile(user: PublicUser, workspaces: map<int, WorkspaceView>)

  datatype Session = Session(profile: Profile, claims: Claims)

  /** `POST /auth/login`. An unknown email and a wrong password give the same
      401, so the answer does not tell which accounts exist. */
  function Login(s: DbState, email: Option<string>, password: Option<string>,
                 matches: (string, string) -> bool): (r: Result<Session>)
    requires Consistent(s)
    ensures !ValidEmail(email) || !Present(password) ==> r == Err(Invalid)
    ensures r.Ok? <==>
      && ValidEmail(email) && Present(password)
      && UserByEmail(s.users, email.value).Some?
      && matches(password.value, s.users[UserByEmail(s.users, email.value).value].credential)
    ensures ValidEmail(email) && Present(password) && r.Err? ==> r == Err(Unauthorized("Invalid credentials"))
    ensures r.Ok? ==>
      var u := r.value.profile.user.id;
      && u in s.users && s.users[u].email == email.value
      && r.value.claims == UserIdClaim(u)
      && r.value.profile.user == Public(u, s.users[u])
      && (forall w :: w in r.value.profile.workspaces <==> (u, w) in s.memberships)
  {
    if !ValidEmail(email) || !Present(password) then Err(Invalid)
    else match UserByEmail(s.users, email.value)
      case None => Err(Unauthorized("Invalid credentials"))
      case Some(u) =>
        if !matches(password.value, s.users[u].credential) then Err(Unauthorized("Invalid credentials"))
        else Ok(Session(Profile(Public(u, s.users[u]), ListWorkspaces(s, u)), UserIdClaim(u)))
  }

  /** `GET /auth/me` for the authenticated user. */
  function Me(s: DbState, caller: int): (r: Result<Profile>)
    requires Consistent(s)
    ensures r.Ok? <==> caller in s.users
    ensures r.Err? ==> r == Err(NotFound("User not found"))
    ensures r.Ok? ==>
      && r.value.user == Public(caller, s.users[caller])
      && (forall w :: w in r.value.workspaces <==> (caller, w) in s.memberships)
  {
    if caller !in s.users then Err(NotFound("User not found"))
    else Ok(Profile(Public(caller, s.users[caller]), ListWorkspaces(s, caller)))
  }

  /** A registered user can log in with the password it registered with,
      as the account just created. */
  lemma {:induction false} RegisterThenLogin(s: DbState, email: Option<string>, password: Option<string>, name: Option<string>,
                                             credential: string, matches: (string, string) -> bool)
    requires Consistent(s)
    requires Register(s, email, password, name, credential).result.Ok?
    requires matches(password.value, credential)
    ensures
      var t := Register(s, email, password, name, credential).state;
      && Consistent(t)
      && Login(t, email, password, matches).Ok?
      && Login(t, email, password, matches).value.profile.user.id == s.nextId
  {
    RegisterConsistent(s, email, password, name, credential);
    var t := Register(s, email, password, name, credential).state;
    var id := s.nextId;
    assert id in t.users && t.users[id].email == email.value;
    assert UserByEmail(t.users, email.value) == Some(id);
  }

  /** The token login hands out authenticates as the same user, and
      `/auth/me` with it answers the same profile. */
  lemma LoginThenMe(s: DbState, email: Option<string>, password: Option<string>, matches: (string, string) -> bool)
    requires Consistent(s)
    requires Login(s, email, password, matches).Ok?
    ensures
      var session := Login(s, email, password, matches).value;
      && Authenticate(s.users, session.claims) == Ok(session.profile.user)
      && Me(s, session.profile.user.id) == Ok(session.profile)
  {
  }

  /** The token registration hands out authenticates as the new account. */
  lemma RegisterTokenAuthenticates(s: DbState, email: Option<string>, password: Option<string>, name: Option<string>,
                                   credential: string)
    requires Consistent(s)
    requires Register(s, email, password, name, credential).result.Ok?
    ensures
      var out := Register(s, email, password, name, credential);
      Authenticate(out.state.users, out.result.value.claims) == Ok(out.result.value.user)
  {
  }
}
