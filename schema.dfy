/** The relational store the routes work on, as values: one map per table,
    keyed by row id (memberships by the pair (userId, workspaceId),
    invitations by their token), plus the next free row id. */
module Schema {
  import opened Outcomes
  import opened Roles
  import opened Js

  /** A user row. The stored password hash is an opaque credential. */
  datatype User = User(email: string, credential: string, name: string, globalRole: Role)

  /** A user row as the routes send it: every column except the password. */
  datatype PublicUser = PublicUser(id: int, email: string, name: string, globalRole: Role)

  datatype Workspace = Workspace(name: string, description: Option<string>)

  datatype Invitation = Invitation(
    email: string, workspaceId: int, role: Role, expiresAt: int, used: bool, inviterId: int)

  datatype Game = Game(
    name: string, genre: string, releaseDate: Option<int>, purchaseDate: Option<int>,
    description: Option<string>, imageUrl: Option<string>, workspaceId: int)

  datatype Puzzle = Puzzle(
    title: string, description: string, status: string, difficulty: int, gameId: int,
    imageUrl: Option<string>)

  datatype Hint = Hint(content: string, isPremium: bool, isUsed: bool, puzzleId: int)

  datatype Maintenance = Maintenance(description: string, status: string, fixDate: int, puzzleId: int)

  /** Report status: the strings "open", "in-progress" and "resolved". */
  datatype ReportStatus = Open | InProgress | Resolved

  /** Report priority: the strings "low", "medium" and "high". */
  datatype Priority = Low | Medium | High

  datatype Report = Report(
    title: string, description: string, reportDate: int, status: ReportStatus,
    priority: Priority, resolution: Option<string>, resolvedAt: Option<int>,
    gameId: int, puzzleId: Option<int>)

  datatype ReportImage = ReportImage(imageUrl: string, reportId: int)

  datatype PuzzleImage = PuzzleImage(imageUrl: string, caption: Option<string>, isPrimary: bool, puzzleId: int)

  datatype DbState = DbState(
    users: map<int, User>,
    workspaces: map<int, Workspace>,
    memberships: map<(int, int), Role>,
    invitations: map<string, Invitation>,
    games: map<int, Game>,
    puzzles: map<int, Puzzle>,
    hints: map<int, Hint>,
    maintenance: map<int, Maintenance>,
    reports: map<int, Report>,
    reportImages: map<int, ReportImage>,
    puzzleImages: map<int, PuzzleImage>,
    nextId: int)

  const EmptyDb := DbState(map[], map[], map[], map[], map[], map[], map[], map[], map[], map[], map[], 1)

  // ---------------------------------------------------------------------
  // The store's invariant, one predicate per constraint.

  /** Row ids are positive and below the next id the store hands out. */
  ghost predicate IdsBelow(ids: set<int>, next: int) {
    forall k :: k in ids ==> 1 <= k < next
  }

  ghost predicate UniqueEmails(users: map<int, User>) {
    forall u, v :: u in users && v in users && users[u].email == users[v].email ==> u == v
  }

  ghost predicate MembershipsLinked(memberships: map<(int, int), Role>, users: map<int, User>, workspaces: map<int, Workspace>) {
    forall k :: k in memberships ==> k.0 in users && k.1 in workspaces
  }

  /** Some ADMIN or SUPER_ADMIN belongs to workspace `w`. */
  ghost predicate HasAdmin(memberships: map<(int, int), Role>, w: int) {
    exists u :: (u, w) in memberships && IsAdminRole(memberships[(u, w)])
  }

  ghost predicate EveryWorkspaceHasAdmin(memberships: map<(int, int), Role>, workspaces: map<int, Workspace>) {
    forall w :: w in workspaces ==> HasAdmin(memberships, w)
  }

  ghost predicate InvitationsLinked(invitations: map<string, Invitation>, workspaces: map<int, Workspace>, users: map<int, User>) {
    forall t :: t in invitations ==> invitations[t].workspaceId in workspaces && invitations[t].inviterId in users
  }

  ghost predicate GamesLinked(games: map<int, Game>, workspaces: map<int, Workspace>) {
    forall g :: g in games ==> games[g].workspaceId in workspaces
  }

  ghost predicate PuzzlesLinked(puzzles: map<int, Puzzle>, games: map<int, Game>) {
    forall p :: p in puzzles ==> puzzles[p].gameId in games
  }

  ghost predicate HintsLinked(hints: map<int, Hint>, puzzles: map<int, Puzzle>) {
    forall h :: h in hints ==> hints[h].puzzleId in puzzles
  }

  ghost predicate MaintenanceLinked(maintenance: map<int, Maintenance>, puzzles: map<int, Puzzle>) {
    forall m :: m in maintenance ==> maintenance[m].puzzleId in puzzles
  }

  /** A report belongs to an existing game, and its puzzle, when it names
      one, exists and belongs to that same game. */
  ghost predicate ReportsLinked(reports: map<int, Report>, games: map<int, Game>, puzzles: map<int, Puzzle>) {
    forall r :: r in reports ==>
      && reports[r].gameId in games
      && (reports[r].puzzleId.Some? ==>
            reports[r].puzzleId.value in puzzles && puzzles[reports[r].puzzleId.value].gameId == reports[r].gameId)
  }

  ghost predicate ReportImagesLinked(reportImages: map<int, ReportImage>, reports: map<int, Report>) {
    forall i :: i in reportImages ==> reportImages[i].reportId in reports
  }

  ghost predicate PuzzleImagesLinked(puzzleImages: map<int, PuzzleImage>, puzzles: map<int, Puzzle>) {
    forall i :: i in puzzleImages ==> puzzleImages[i].puzzleId in puzzles
  }

  /** `resolvedAt` is set exactly while the report is resolved. */
  ghost predicate ResolvedTracked(reports: map<int, Report>) {
    forall r :: r in reports ==> (reports[r].resolvedAt.Some? <==> reports[r].status == Resolved)
  }

  /** No puzzle has two primary images. */
  ghost predicate OnePrimary(puzzleImages: map<int, PuzzleImage>) {
    forall i, j ::
      (i in puzzleImages && j in puzzleImages && puzzleImages[i].isPrimary && puzzleImages[j].isPrimary
       && puzzleImages[i].puzzleId == puzzleImages[j].puzzleId) ==> i == j
  }

  ghost predicate IdsFresh(s: DbState) {
    && 1 <= s.nextId
    && IdsBelow(s.users.Keys, s.nextId) && IdsBelow(s.workspaces.Keys, s.nextId) && IdsBelow(s.games.Keys, s.nextId)
    && IdsBelow(s.puzzles.Keys, s.nextId) && IdsBelow(s.hints.Keys, s.nextId) && IdsBelow(s.maintenance.Keys, s.nextId)
    && IdsBelow(s.reports.Keys, s.nextId) && IdsBelow(s.reportImages.Keys, s.nextId) && IdsBelow(s.puzzleImages.Keys, s.nextId)
  }

  ghost predicate Linked(s: DbState) {
    && MembershipsLinked(s.memberships, s.users, s.workspaces)
    && InvitationsLinked(s.invitations, s.workspaces, s.users)
    && GamesLinked(s.games, s.workspaces)
    && PuzzlesLinked(s.puzzles, s.games)
    && HintsLinked(s.hints, s.puzzles)
    && MaintenanceLinked(s.maintenance, s.puzzles)
    && ReportsLinked(s.reports, s.games, s.puzzles)
    && ReportImagesLinked(s.reportImages, s.reports)
    && PuzzleImagesLinked(s.puzzleImages, s.puzzles)
  }

  /** Everything the routes keep true of the store. */
  ghost predicate Consistent(s: DbState) {
    && IdsFresh(s)
    && Linked(s)
    && UniqueEmails(s.users)
    && EveryWorkspaceHasAdmin(s.memberships, s.workspaces)
    && ResolvedTracked(s.reports)
    && OnePrimary(s.puzzleImages)
  }

  lemma EmptyDbConsistent()
    ensures Consistent(EmptyDb)
  {
  }

  /** What a route that writes to the store produces: its response and the
      store after it. */
  datatype Outcome<T> = Outcome(result: Result<T>, state: DbState)

  /** Adding rows to the membership table never takes an admin away. */
  lemma {:induction false} MoreMembershipsKeepAdmins(m: map<(int, int), Role>, m': map<(int, int), Role>, ws: map<int, Workspace>)
    requires SubMap(m, m') && EveryWorkspaceHasAdmin(m, ws)
    ensures EveryWorkspaceHasAdmin(m', ws)
  {
    forall w | w in ws ensures HasAdmin(m', w) {
      assert HasAdmin(m, w);
      var u :| (u, w) in m && IsAdminRole(m[(u, w)]);
      assert m'[(u, w)] == m[(u, w)];
    }
  }

  /** A set with more than one element has an element other than `x`. */
  lemma AnotherElement(a: set<int>, x: int) returns (y: int)
    requires x in a && |a| > 1
    ensures y in a && y != x
  {
    assert (forall o :: o in a ==> o == x) ==> a == {x} by {
      if forall o :: o in a ==> o == x {
        assert forall o :: o in a <==> o in {x};
      }
    }
    y :| y in a && y != x;
  }

  // ---------------------------------------------------------------------
  // Single-row writes that keep the invariant. The routes' own consistency
  // lemmas compose these.

  /** Taking the next id keeps every row's id below the counter. */
  lemma {:induction false} IdsFreshBumped(s: DbState)
    requires IdsFresh(s)
    ensures IdsFresh(s.(nextId := s.nextId + 1))
  {
    var n := s.nextId + 1;
    assert IdsBelow(s.users.Keys, n) && IdsBelow(s.workspaces.Keys, n) && IdsBelow(s.games.Keys, n);
    assert IdsBelow(s.puzzles.Keys, n) && IdsBelow(s.hints.Keys, n) && IdsBelow(s.maintenance.Keys, n);
    assert IdsBelow(s.reports.Keys, n) && IdsBelow(s.reportImages.Keys, n) && IdsBelow(s.puzzleImages.Keys, n);
  }

  /** Raising the counter keeps every row's id below it. */
  lemma IdsFreshRaised(s: DbState, next: int)
    requires IdsFresh(s) && next >= s.nextId
    ensures IdsFresh(s.(nextId := next))
  {
    assert IdsBelow(s.users.Keys, next) && IdsBelow(s.workspaces.Keys, next) && IdsBelow(s.games.Keys, next);
    assert IdsBelow(s.puzzles.Keys, next) && IdsBelow(s.hints.Keys, next) && IdsBelow(s.maintenance.Keys, next);
    assert IdsBelow(s.reports.Keys, next) && IdsBelow(s.reportImages.Keys, next) && IdsBelow(s.puzzleImages.Keys, next);
  }

  /** A row stored under the id just taken keeps the table's ids below the
      bumped counter. */
  lemma FreshRowIdsBelow<T>(m: map<int, T>, next: int, row: T)
    requires IdsBelow(m.Keys, next) && 1 <= next
    ensures next !in m && IdsBelow(m[next := row].Keys, next + 1)
  {
  }

  // Each lemma below takes the state after the write as `t`, so that its
  // caller names that state in its own terms.

  /** Registering a user under the next id, with an email no account has. */
  lemma {:induction false} AddUserConsistent(s: DbState, u: User, t: DbState)
    requires Consistent(s)
    requires forall v :: v in s.users ==> s.users[v].email != u.email
    requires t == s.(users := s.users[s.nextId := u], nextId := s.nextId + 1)
    ensures Consistent(t)
  {
    var id := s.nextId;
    var users := t.users;
    IdsFreshBumped(s);
    FreshRowIdsBelow(s.users, id, u);
    assert IdsFresh(t);
    assert UniqueEmails(users) by {
      forall a, b | a in users && b in users && users[a].email == users[b].email ensures a == b {
        if a != id && b != id {
          assert s.users[a].email == s.users[b].email;
        }
      }
    }
    assert MembershipsLinked(t.memberships, users, t.workspaces);
    assert InvitationsLinked(t.invitations, t.workspaces, users);
    assert Linked(t);
  }

  /** A new membership row for an existing user in an existing workspace. */
  lemma {:induction false} AddMembershipConsistent(s: DbState, u: int, w: int, role: Role, t: DbState)
    requires Consistent(s) && u in s.users && w in s.workspaces && (u, w) !in s.memberships
    requires t == s.(memberships := s.memberships[(u, w) := role])
    ensures Consistent(t)
  {
    var m := t.memberships;
    assert MembershipsLinked(m, s.users, s.workspaces);
    assert Linked(t);
    assert EveryWorkspaceHasAdmin(m, s.workspaces) by {
      forall v | v in s.workspaces ensures HasAdmin(m, v) {
        if v == w && IsAdminRole(role) {
          assert (u, w) in m && IsAdminRole(m[(u, w)]);
        } else {
          assert HasAdmin(s.memberships, v);
          var a :| (a, v) in s.memberships && IsAdminRole(s.memberships[(a, v)]);
          assert (a, v) in m && m[(a, v)] == s.memberships[(a, v)];
        }
      }
    }
  }

  /** A workspace stored under the next id together with its first admin. */
  lemma {:induction false} AddWorkspaceConsistent(s: DbState, ws: Workspace, admin: int, role: Role, t: DbState)
    requires Consistent(s) && admin in s.users && IsAdminRole(role)
    requires t == s.(workspaces := s.workspaces[s.nextId := ws],
                     memberships := s.memberships[(admin, s.nextId) := role],
                     nextId := s.nextId + 1)
    ensures Consistent(t)
  {
    var id := s.nextId;
    var workspaces := t.workspaces;
    var m := t.memberships;
    IdsFreshBumped(s);
    FreshRowIdsBelow(s.workspaces, id, ws);
    assert IdsFresh(t);
    assert (admin, id) !in s.memberships;
    MoreMembershipsKeepAdmins(s.memberships, m, s.workspaces);
    assert EveryWorkspaceHasAdmin(m, workspaces) by {
      assert (admin, id) in m && IsAdminRole(m[(admin, id)]);
      assert HasAdmin(m, id);
    }
    assert MembershipsLinked(m, t.users, workspaces);
    assert InvitationsLinked(t.invitations, workspaces, t.users);
    assert GamesLinked(t.games, workspaces);
    assert Linked(t);
  }

  /** An invitation row (new, or the same row marked used) whose workspace
      and inviter exist. */
  lemma {:induction false} SetInvitationConsistent(s: DbState, token: string, invitation: Invitation, t: DbState)
    requires Consistent(s) && invitation.workspaceId in s.workspaces && invitation.inviterId in s.users
    requires t == s.(invitations := s.invitations[token := invitation])
    ensures Consistent(t)
  {
    assert InvitationsLinked(t.invitations, t.workspaces, t.users);
    assert Linked(t);
  }

  // ---------------------------------------------------------------------
  // Lookups shared by several routes.

  /** `prisma.user.findUnique({ where: { email } })`. */
  function UserByEmail(users: map<int, User>, email: string): (r: Option<int>)
    requires UniqueEmails(users)
    ensures r.Some? ==> r.value in users && users[r.value].email == email
    ensures r.None? ==> forall u :: u in users ==> users[u].email != email
  {
    if exists u :: u in users && users[u].email == email then
      var u :| u in users && users[u].email == email; Some(u)
    else None
  }

  function Public(id: int, u: User): (p: PublicUser)
    ensures p.id == id && p.email == u.email && p.name == u.name && p.globalRole == u.globalRole
  {
    PublicUser(id, u.email, u.name, u.globalRole)
  }

  /** The members of workspace `w` holding ADMIN or SUPER_ADMIN, the rows
      that `userWorkspace.count({ role: { in: [...] } })` counts. */
  function AdminsOf(memberships: map<(int, int), Role>, w: int): (r: set<int>)
    ensures forall u :: u in r <==> (u, w) in memberships && IsAdminRole(memberships[(u, w)])
  {
    set k | k in memberships && k.1 == w && IsAdminRole(memberships[k]) :: k.0
  }

  /** A JavaScript number used as an Int column value: NaN makes the store
      reject the query, which the handlers answer with 500. */
  function ColumnId(n: JsNum): (r: Result<int>)
    ensures r.Ok? <==> n.Num?
    ensures r.Ok? ==> r.value == n.value
    ensures r.Err? ==> r.error == Internal
  {
    match n
    case NaN => Err(Internal)
    case Num(v) => Ok(v)
  }

  // ---------------------------------------------------------------------
  // Workspace resolution shared by the scoped list routes of games, hints,
  // maintenance and reports: `req.query.workspaceId || req.user.currentWorkspaceId`.

  /** The workspace a list request names, as the number the handler passes to
      the store: the query string when it is non-empty (through `Number`),
      else the header-derived current id when it is truthy, else none. */
  function RequestedWorkspace(query: Option<string>, current: Option<JsNum>): (r: Option<JsNum>)
    ensures r.None? <==> !Present(query) && !(current.Some? && Truthy(current.value))
    ensures Present(query) ==> r == Some(NumberOf(query.value))
    ensures !Present(query) && current.Some? && Truthy(current.value) ==> r == current
  {
    if Present(query) then Some(NumberOf(query.value))
    else if current.Some? && Truthy(current.value) then current
    else None
  }

  /** What a membership-checked list is scoped to: `Ok(None)` means the route
      answers with an empty list (no workspace named, or the caller is not a
      member of it); a NaN id is a store error. */
  function ListScope(s: DbState, caller: int, query: Option<string>, current: Option<JsNum>): (r: Result<Option<int>>)
    ensures r.Err? <==> RequestedWorkspace(query, current) == Some(NaN)
    ensures r.Err? ==> r.error == Internal
    ensures r.Ok? && r.value.Some? <==>
      (exists w :: RequestedWorkspace(query, current) == Some(Num(w)) && (caller, w) in s.memberships)
    ensures r.Ok? && r.value.Some? ==>
      RequestedWorkspace(query, current) == Some(Num(r.value.value)) && (caller, r.value.value) in s.memberships
  {
    match RequestedWorkspace(query, current)
    case None => Ok(None)
    case Some(NaN) => Err(Internal)
    case Some(Num(w)) => if (caller, w) in s.memberships then Ok(Some(w)) else Ok(None)
  }

  /** The join the hint and maintenance lists filter on: puzzle `p` belongs
      to a game of workspace `w`. */
  predicate PuzzleInWorkspace(s: DbState, p: int, w: int) {
    p in s.puzzles && s.puzzles[p].gameId in s.games && s.games[s.puzzles[p].gameId].workspaceId == w
  }

  // ---------------------------------------------------------------------
  // Deletion cascades. Deleting a game removes its puzzles (with their hints,
  // maintenance records and images) and its reports (with their images);
  // deleting a puzzle removes its hints, maintenance records and images and
  // detaches the reports that named it.

  function PuzzlesOfGame(s: DbState, g: int): (r: set<int>)
    ensures forall p :: p in r <==> p in s.puzzles && s.puzzles[p].gameId == g
  {
    set p | p in s.puzzles && s.puzzles[p].gameId == g
  }

  function ReportsOfGame(s: DbState, g: int): (r: set<int>)
    ensures forall q :: q in r <==> q in s.reports && s.reports[q].gameId == g
  {
    set q | q in s.reports && s.reports[q].gameId == g
  }

  function WithoutGame(s: DbState, g: int): DbState {
    var doomedPuzzles := PuzzlesOfGame(s, g);
    var doomedReports := ReportsOfGame(s, g);
    s.(games := s.games - {g},
       puzzles := s.puzzles - doomedPuzzles,
       hints := map h | h in s.hints && s.hints[h].puzzleId !in doomedPuzzles :: s.hints[h],
       maintenance := map m | m in s.maintenance && s.maintenance[m].puzzleId !in doomedPuzzles :: s.maintenance[m],
       puzzleImages := map i | i in s.puzzleImages && s.puzzleImages[i].puzzleId !in doomedPuzzles :: s.puzzleImages[i],
       reports := s.reports - doomedReports,
       reportImages := map i | i in s.reportImages && s.reportImages[i].reportId !in doomedReports :: s.reportImages[i])
  }

  function Detach(r: Report, p: int): Report {
    if r.puzzleId == Some(p) then r.(puzzleId := None) else r
  }

  function WithoutPuzzle(s: DbState, p: int): DbState {
    s.(puzzles := s.puzzles - {p},
       hints := map h | h in s.hints && s.hints[h].puzzleId != p :: s.hints[h],
       maintenance := map m | m in s.maintenance && s.maintenance[m].puzzleId != p :: s.maintenance[m],
       puzzleImages := map i | i in s.puzzleImages && s.puzzleImages[i].puzzleId != p :: s.puzzleImages[i],
       reports := map q | q in s.reports :: Detach(s.reports[q], p))
  }

  function WithoutReport(s: DbState, q: int): DbState {
    s.(reports := s.reports - {q},
       reportImages := map i | i in s.reportImages && s.reportImages[i].reportId != q :: s.reportImages[i])
  }

  /** Every row of `a` is a row of `b`, unchanged. */
  ghost predicate SubMap<K, V>(a: map<K, V>, b: map<K, V>) {
    forall k :: k in a ==> k in b && a[k] == b[k]
  }

  lemma SubMapIdsBelow<T>(a: map<int, T>, b: map<int, T>, next: int)
    requires SubMap(a, b) && IdsBelow(b.Keys, next)
    ensures IdsBelow(a.Keys, next)
  {
  }

  lemma SubMapOnePrimary(a: map<int, PuzzleImage>, b: map<int, PuzzleImage>)
    requires SubMap(a, b) && OnePrimary(b)
    ensures OnePrimary(a)
  {
  }

  lemma SubMapResolvedTracked(a: map<int, Report>, b: map<int, Report>)
    requires SubMap(a, b) && ResolvedTracked(b)
    ensures ResolvedTracked(a)
  {
  }

  // Deleting a game, one link at a time: each kept row still finds what it
  // refers to.

  lemma WithoutGameReportsLinked(s: DbState, g: int)
    requires ReportsLinked(s.reports, s.games, s.puzzles)
    ensures ReportsLinked(WithoutGame(s, g).reports, WithoutGame(s, g).games, WithoutGame(s, g).puzzles)
  {
    var t := WithoutGame(s, g);
    forall q | q in t.reports
      ensures t.reports[q].gameId in t.games
      ensures t.reports[q].puzzleId.Some? ==>
        t.reports[q].puzzleId.value in t.puzzles && t.puzzles[t.reports[q].puzzleId.value].gameId == t.reports[q].gameId
    {
      assert s.reports[q] == t.reports[q] && s.reports[q].gameId != g;
    }
  }

  lemma WithoutGamePuzzlesLinked(s: DbState, g: int)
    requires PuzzlesLinked(s.puzzles, s.games)
    ensures PuzzlesLinked(WithoutGame(s, g).puzzles, WithoutGame(s, g).games)
  {
    var t := WithoutGame(s, g);
    forall p | p in t.puzzles ensures t.puzzles[p].gameId in t.games {
      assert s.puzzles[p] == t.puzzles[p];
    }
  }

  lemma WithoutGameHintsLinked(s: DbState, g: int)
    requires HintsLinked(s.hints, s.puzzles)
    ensures HintsLinked(WithoutGame(s, g).hints, WithoutGame(s, g).puzzles)
  {
    var t := WithoutGame(s, g);
    forall h | h in t.hints ensures t.hints[h].puzzleId in t.puzzles {
      assert s.hints[h] == t.hints[h];
    }
  }

  lemma WithoutGameMaintenanceLinked(s: DbState, g: int)
    requires MaintenanceLinked(s.maintenance, s.puzzles)
    ensures MaintenanceLinked(WithoutGame(s, g).maintenance, WithoutGame(s, g).puzzles)
  {
    var t := WithoutGame(s, g);
    forall m | m in t.maintenance ensures t.maintenance[m].puzzleId in t.puzzles {
      assert s.maintenance[m] == t.maintenance[m];
    }
  }

  lemma WithoutGameImagesLinked(s: DbState, g: int)
    requires PuzzleImagesLinked(s.puzzleImages, s.puzzles) && ReportImagesLinked(s.reportImages, s.reports)
    ensures PuzzleImagesLinked(WithoutGame(s, g).puzzleImages, WithoutGame(s, g).puzzles)
    ensures ReportImagesLinked(WithoutGame(s, g).reportImages, WithoutGame(s, g).reports)
  {
    var t := WithoutGame(s, g);
    forall i | i in t.puzzleImages ensures t.puzzleImages[i].puzzleId in t.puzzles {
      assert s.puzzleImages[i] == t.puzzleImages[i];
    }
    forall i | i in t.reportImages ensures t.reportImages[i].reportId in t.reports {
      assert s.reportImages[i] == t.reportImages[i];
    }
  }

  /** Deleting a game removes every row that refers to it or to anything it
      owned, and keeps every other row. */
  lemma {:induction false} WithoutGameLinked(s: DbState, g: int)
    requires Linked(s)
    ensures Linked(WithoutGame(s, g))
  {
    WithoutGameReportsLinked(s, g);
    WithoutGamePuzzlesLinked(s, g);
    WithoutGameHintsLinked(s, g);
    WithoutGameMaintenanceLinked(s, g);
    WithoutGameImagesLinked(s, g);
  }

  lemma {:induction false} WithoutGameConsistent(s: DbState, g: int)
    requires Consistent(s)
    ensures Consistent(WithoutGame(s, g))
    ensures g !in WithoutGame(s, g).games
    ensures forall p :: p in WithoutGame(s, g).puzzles ==> WithoutGame(s, g).puzzles[p].gameId != g
    ensures forall q :: q in WithoutGame(s, g).reports ==> WithoutGame(s, g).reports[q].gameId != g
    ensures forall p :: p in s.puzzles && s.puzzles[p].gameId != g ==> p in WithoutGame(s, g).puzzles
  {
    var t := WithoutGame(s, g);
    WithoutGameLinked(s, g);
    SubMapIdsBelow(t.games, s.games, s.nextId);
    SubMapIdsBelow(t.puzzles, s.puzzles, s.nextId);
    SubMapIdsBelow(t.hints, s.hints, s.nextId);
    SubMapIdsBelow(t.maintenance, s.maintenance, s.nextId);
    SubMapIdsBelow(t.reports, s.reports, s.nextId);
    SubMapIdsBelow(t.reportImages, s.reportImages, s.nextId);
    SubMapIdsBelow(t.puzzleImages, s.puzzleImages, s.nextId);
    SubMapOnePrimary(t.puzzleImages, s.puzzleImages);
    SubMapResolvedTracked(t.reports, s.reports);
  }

  // Deleting a puzzle, one link at a time.

  lemma WithoutPuzzleReportsLinked(s: DbState, p: int)
    requires ReportsLinked(s.reports, s.games, s.puzzles)
    ensures ReportsLinked(WithoutPuzzle(s, p).reports, WithoutPuzzle(s, p).games, WithoutPuzzle(s, p).puzzles)
  {
    var t := WithoutPuzzle(s, p);
    forall q | q in t.reports
      ensures t.reports[q].gameId in t.games
      ensures t.reports[q].puzzleId.Some? ==>
        t.reports[q].puzzleId.value in t.puzzles && t.puzzles[t.reports[q].puzzleId.value].gameId == t.reports[q].gameId
    {
      assert t.reports[q] == Detach(s.reports[q], p);
    }
  }

  lemma WithoutPuzzleChildrenLinked(s: DbState, p: int)
    requires HintsLinked(s.hints, s.puzzles) && MaintenanceLinked(s.maintenance, s.puzzles)
    requires PuzzleImagesLinked(s.puzzleImages, s.puzzles)
    ensures HintsLinked(WithoutPuzzle(s, p).hints, WithoutPuzzle(s, p).puzzles)
    ensures MaintenanceLinked(WithoutPuzzle(s, p).maintenance, WithoutPuzzle(s, p).puzzles)
    ensures PuzzleImagesLinked(WithoutPuzzle(s, p).puzzleImages, WithoutPuzzle(s, p).puzzles)
  {
    var t := WithoutPuzzle(s, p);
    forall h | h in t.hints ensures t.hints[h].puzzleId in t.puzzles {
      assert s.hints[h] == t.hints[h];
    }
    forall m | m in t.maintenance ensures t.maintenance[m].puzzleId in t.puzzles {
      assert s.maintenance[m] == t.maintenance[m];
    }
    forall i | i in t.puzzleImages ensures t.puzzleImages[i].puzzleId in t.puzzles {
      assert s.puzzleImages[i] == t.puzzleImages[i];
    }
  }

  lemma WithoutPuzzleReportImagesLinked(s: DbState, p: int)
    requires ReportImagesLinked(s.reportImages, s.reports)
    ensures ReportImagesLinked(WithoutPuzzle(s, p).reportImages, WithoutPuzzle(s, p).reports)
  {
    assert WithoutPuzzle(s, p).reports.Keys == s.reports.Keys;
  }

  lemma {:induction false} WithoutPuzzleLinked(s: DbState, p: int)
    requires Linked(s)
    ensures Linked(WithoutPuzzle(s, p))
  {
    WithoutPuzzleReportsLinked(s, p);
    WithoutPuzzleChildrenLinked(s, p);
    WithoutPuzzleReportImagesLinked(s, p);
  }

  lemma WithoutPuzzleResolvedTracked(s: DbState, p: int)
    requires ResolvedTracked(s.reports)
    ensures WithoutPuzzle(s, p).reports.Keys == s.reports.Keys
    ensures ResolvedTracked(WithoutPuzzle(s, p).reports)
  {
    var t := WithoutPuzzle(s, p);
    assert t.reports.Keys == s.reports.Keys;
    forall q | q in t.reports ensures t.reports[q].resolvedAt.Some? <==> t.reports[q].status == Resolved {
      assert t.reports[q] == Detach(s.reports[q], p);
    }
  }

  /** Deleting a puzzle keeps the store consistent: the reports that named it
      stay, no longer naming any puzzle. */
  lemma {:induction false} WithoutPuzzleConsistent(s: DbState, p: int)
    requires Consistent(s)
    ensures Consistent(WithoutPuzzle(s, p))
    ensures p !in WithoutPuzzle(s, p).puzzles
    ensures WithoutPuzzle(s, p).reports.Keys == s.reports.Keys
    ensures forall q :: q in s.reports && s.reports[q].puzzleId == Some(p) ==> WithoutPuzzle(s, p).reports[q].puzzleId.None?
  {
    var t := WithoutPuzzle(s, p);
    WithoutPuzzleLinked(s, p);
    SubMapIdsBelow(t.puzzles, s.puzzles, s.nextId);
    SubMapIdsBelow(t.hints, s.hints, s.nextId);
    SubMapIdsBelow(t.maintenance, s.maintenance, s.nextId);
    SubMapIdsBelow(t.puzzleImages, s.puzzleImages, s.nextId);
    SubMapOnePrimary(t.puzzleImages, s.puzzleImages);
    WithoutPuzzleResolvedTracked(s, p);
  }

  lemma WithoutReportConsistent(s: DbState, q: int)
    requires Consistent(s)
    ensures Consistent(WithoutReport(s, q))
    ensures q !in WithoutReport(s, q).reports
    ensures forall i :: i in WithoutReport(s, q).reportImages ==> WithoutReport(s, q).reportImages[i].reportId != q
  {
  }
}
