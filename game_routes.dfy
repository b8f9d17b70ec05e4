/** The game routes. Every route needs a logged-in caller. The list and
    create routes resolve a workspace from the request; the routes on one
    game check the caller's membership in the game's own workspace, except
    `GET /games/:id`, which compares the `X-Workspace-ID` header instead. */
module GameRoutes {
  import opened Outcomes
  import opened Roles
  import opened Js
  import opened Schema
  import opened AuthMiddleware
  import Store

  // ---------------------------------------------------------------------
  // Reading

  /** `GET /games`: the games of the workspace the request names (query
      parameter, else header) when the caller is a member of it; naming no
      workspace, or one the caller does not belong to, answers an empty
      list rather than an error. */
  function ListGames(s: DbState, caller: int, query: Option<string>, current: Option<JsNum>): (r: Result<map<int, Game>>)
    ensures r.Err? <==> RequestedWorkspace(query, current) == Some(NaN)
    ensures r.Err? ==> r.error == Internal
    ensures r.Ok? ==> forall g :: g in r.value <==>
      g in s.games && ListScope(s, caller, query, current) == Ok(Some(s.games[g].workspaceId))
    ensures r.Ok? ==> forall g :: g in r.value ==>
      r.value[g] == s.games[g] && (caller, s.games[g].workspaceId) in s.memberships
  {
    match ListScope(s, caller, query, current)
    case Err(e) => Err(e)
    case Ok(None) => Ok(map[])
    case Ok(Some(w)) => Ok(map g | g in s.games && s.games[g].workspaceId == w :: s.games[g])
  }

  /** A client that names workspace `w` in the query string sees exactly the
      games of `w` when it is a member of `w`, and nothing otherwise. */
  lemma {:induction false} ListGamesByQuery(s: DbState, caller: int, w: int, current: Option<JsNum>)
    ensures ListGames(s, caller, Some(IntToString(w)), current).Ok?
    ensures forall g :: g in ListGames(s, caller, Some(IntToString(w)), current).value <==>
      g in s.games && s.games[g].workspaceId == w && (caller, w) in s.memberships
  {
    NumberOfIntToString(w);
    assert RequestedWorkspace(Some(IntToString(w)), current) == Some(Num(w));
  }

  /** The body of `GET /games/:id`: the game and its puzzles. */
  datatype GameDetail = GameDetail(game: Game, puzzles: map<int, Puzzle>)

  /** `GET /games/:id` as written: 404 for an unknown id, then 403 unless the
      request's current workspace id (from `X-Workspace-ID`) equals the
      game's workspace. No membership row is consulted, so the caller does
      not appear here at all. */
  function GetGame(s: DbState, current: Option<JsNum>, id: int): (r: Result<GameDetail>)
    ensures id !in s.games ==> r == Err(NotFound("Game not found"))
    ensures r.Ok? <==> id in s.games && current == Some(Num(s.games[id].workspaceId))
    ensures id in s.games && !r.Ok? ==> r == Err(Forbidden("You do not have access to this game"))
    ensures r.Ok? ==>
      && r.value.game == s.games[id]
      && (forall p :: p in r.value.puzzles <==> p in s.puzzles && s.puzzles[p].gameId == id)
  {
    if id !in s.games then Err(NotFound("Game not found"))
    else if current != Some(Num(s.games[id].workspaceId)) then Err(Forbidden("You do not have access to this game"))
    else Ok(GameDetail(s.games[id], map p | p in s.puzzles && s.puzzles[p].gameId == id :: s.puzzles[p]))
  }

  /** `GET /games/:id` with the membership test the other single-game routes
      make: the caller must belong to the game's workspace. */
  function GetGameChecked(s: DbState, caller: int, id: int): (r: Result<GameDetail>)
    ensures id !in s.games ==> r == Err(NotFound("Game not found"))
    ensures r.Ok? <==> id in s.games && (caller, s.games[id].workspaceId) in s.memberships
    ensures id in s.games && !r.Ok? ==> r == Err(Forbidden("You do not have access to this game"))
    ensures r.Ok? ==>
      && r.value.game == s.games[id]
      && (forall p :: p in r.value.puzzles <==> p in s.puzzles && s.puzzles[p].gameId == id)
  {
    if id !in s.games then Err(NotFound("Game not found"))
    else if (caller, s.games[id].workspaceId) !in s.memberships then Err(Forbidden("You do not have access to this game"))
    else Ok(GameDetail(s.games[id], map p | p in s.puzzles && s.puzzles[p].gameId == id :: s.puzzles[p]))
  }

  /** A store with one workspace (3) whose only member is user 1, its
      admin, holding game 4. User 2 belongs to no workspace. */
  function TwoTenantStore(): (s: DbState)
    ensures 4 in s.games && s.games[4].workspaceId == 3
    ensures 2 in s.users && forall w :: (2, w) !in s.memberships
  {
    EmptyDb.(
      users := map[1 := Schema.User("a@x", "h", "A", Role.User), 2 := Schema.User("b@x", "h", "B", Role.User)],
      workspaces := map[3 := Workspace("W", None)],
      memberships := map[(1, 3) := Admin],
      games := map[4 := Game("G", "escape", None, None, None, None, 3)],
      nextId := 5)
  }

  lemma TwoTenantStoreConsistent()
    ensures Consistent(TwoTenantStore())
  {
    var s := TwoTenantStore();
    assert s.users.Keys == {1, 2} && s.workspaces.Keys == {3} && s.games.Keys == {4};
    assert s.memberships.Keys == {(1, 3)};
    assert IdsFresh(s);
    assert UniqueEmails(s.users);
    assert HasAdmin(s.memberships, 3) by {
      assert (1, 3) in s.memberships && IsAdminRole(s.memberships[(1, 3)]);
    }
    assert EveryWorkspaceHasAdmin(s.memberships, s.workspaces);
    assert MembershipsLinked(s.memberships, s.users, s.workspaces);
    assert GamesLinked(s.games, s.workspaces);
    assert Linked(s);
  }

  /** As written, a user who belongs to no workspace reads another
      workspace's game by sending that workspace's id in the header; the
      membership-checked route refuses the same user. */
  lemma NonMemberReadsGame()
    ensures var s := TwoTenantStore();
      && Consistent(s)
      && (forall w :: (2, w) !in s.memberships)
      && GetGame(s, Some(Num(3)), 4).Ok?
      && GetGameChecked(s, 2, 4) == Err(Forbidden("You do not have access to this game"))
  {
    TwoTenantStoreConsistent();
  }

  /** Whoever the checked route admits is a member of the game's workspace;
      whoever belongs to it is admitted. */
  lemma GetGameCheckedOnlyMembers(s: DbState, caller: int, id: int)
    requires Consistent(s) && id in s.games
    ensures GetGameChecked(s, caller, id).Ok? <==> (caller, s.games[id].workspaceId) in s.memberships
    ensures GetGameChecked(s, caller, id).Ok? ==> s.games[id].workspaceId in s.workspaces
  {
  }

  /** `GET /games/:id/puzzles`: 404 for an unknown game, 403 unless the caller
      belongs to the game's workspace, otherwise the game's puzzles. */
  function ListGamePuzzles(s: DbState, caller: int, id: int): (r: Result<map<int, Puzzle>>)
    ensures id !in s.games ==> r == Err(NotFound("Game not found"))
    ensures r.Ok? <==> id in s.games && (caller, s.games[id].workspaceId) in s.memberships
    ensures id in s.games && !r.Ok? ==> r == Err(Forbidden("You do not have access to this game"))
    ensures r.Ok? ==> forall p :: p in r.value <==> p in s.puzzles && s.puzzles[p].gameId == id
    ensures r.Ok? ==> forall p :: p in r.value ==> r.value[p] == s.puzzles[p]
  {
    if id !in s.games then Err(NotFound("Game not found"))
    else if (caller, s.games[id].workspaceId) !in s.memberships then Err(Forbidden("You do not have access to this game"))
    else Ok(map p | p in s.puzzles && s.puzzles[p].gameId == id :: s.puzzles[p])
  }

  // ---------------------------------------------------------------------
  // Writing

  /** The body fields of a game. Dates are timestamps; a missing or empty
      date is `None`. */
  datatype GameFields = GameFields(
    name: Option<string>, genre: Option<string>, releaseDate: Option<int>, purchaseDate: Option<int>,
    description: Option<string>, imageUrl: Option<string>)

  /** The body's `workspaceId` as JSON carries it: a number or a string. */
  type BodyId = Field<BodyValue>

  /** `body('workspaceId').optional().isInt()`: absent passes; a number is
      an integer here; a string must be integer text; anything else fails. */
  predicate IntBody(body: BodyId) {
    match body
    case Missing => true
    case Given(BodyNumber(_)) => true
    case Given(BodyString(t)) => IsIntText(t)
    case Malformed => false
  }

  /** `workspaceId || req.query.workspaceId || req.user.currentWorkspaceId`,
      passed through `Number`: a truthy body value first (a non-zero number
      or a non-empty string, `"0"` included), then the list routes'
      resolution. */
  function CreateTarget(body: BodyId, query: Option<string>, current: Option<JsNum>): Option<JsNum> {
    match body
    case Given(BodyNumber(n)) =>
      if n != 0 then Some(Num(n)) else RequestedWorkspace(query, current)
    case Given(BodyString(t)) =>
      if t != "" then Some(NumberOf(t)) else RequestedWorkspace(query, current)
    case _ => RequestedWorkspace(query, current)
  }

  /** A body id that passes `isInt` as a string is truthy, so it is the
      target whatever the query and the header say, and it names the number
      it spells: the string `"0"` names workspace 0. */
  lemma BodyTextIsTarget(t: string, query: Option<string>, current: Option<JsNum>)
    requires IsIntText(t)
    ensures CreateTarget(Given(BodyString(t)), query, current)
              == Some(Num(Negate(t[0] == '-', DecimalValue(Unsigned(t)))))
  {
    NumberOfIntText(t);
  }

  function NewGame(fields: GameFields, w: int): Game
    requires fields.name.Some? && fields.genre.Some?
  {
    Game(fields.name.value, fields.genre.value, fields.releaseDate, fields.purchaseDate,
         fields.description, fields.imageUrl, w)
  }

  /** `POST /games`: name and genre must be non-empty and a body workspace id
      an integer (400); no workspace named gives 400, a workspace the caller
      does not belong to 403; otherwise the game is stored under the next id
      in that workspace. */
  function CreateGame(s: DbState, caller: int, fields: GameFields, body: BodyId,
                      query: Option<string>, current: Option<JsNum>): (out: Outcome<int>)
    ensures out.result.Err? ==> out.state == s
    ensures !Present(fields.name) || !Present(fields.genre) || !IntBody(body) ==> out.result == Err(Invalid)
    ensures Present(fields.name) && Present(fields.genre) && IntBody(body) && CreateTarget(body, query, current).None? ==>
      out.result == Err(BadRequest("Workspace ID is required"))
    ensures Present(fields.name) && Present(fields.genre) && IntBody(body) && CreateTarget(body, query, current) == Some(NaN) ==>
      out.result == Err(Internal)
    ensures out.result.Ok? <==>
      && Present(fields.name) && Present(fields.genre) && IntBody(body)
      && CreateTarget(body, query, current).Some? && CreateTarget(body, query, current).value.Num?
      && (caller, CreateTarget(body, query, current).value.value) in s.memberships
      && CreateTarget(body, query, current).value.value in s.workspaces
    ensures out.result.Ok? ==>
      var w := CreateTarget(body, query, current).value.value;
      && out.result.value == s.nextId
      && out.state == s.(games := s.games[s.nextId := NewGame(fields, w)], nextId := s.nextId + 1)
  {
    if !Present(fields.name) || !Present(fields.genre) || !IntBody(body) then Outcome(Err(Invalid), s)
    else match CreateTarget(body, query, current)
      case None => Outcome(Err(BadRequest("Workspace ID is required")), s)
      case Some(NaN) => Outcome(Err(Internal), s)
      case Some(Num(w)) =>
        if (caller, w) !in s.memberships then Outcome(Err(Forbidden("You do not have access to this workspace")), s)
        // The foreign key on the workspace.
        else if w !in s.workspaces then Outcome(Err(Internal), s)
        else Outcome(Ok(s.nextId), s.(games := s.games[s.nextId := NewGame(fields, w)], nextId := s.nextId + 1))
  }

  method HandleCreateGame(db: Store.Db, caller: int, fields: GameFields, body: BodyId,
                          query: Option<string>, current: Option<JsNum>) returns (r: Result<int>)
    modifies db
    ensures Outcome(r, db.tables) == CreateGame(old(db.tables), caller, fields, body, query, current)
  {
    if !Present(fields.name) || !Present(fields.genre) || !IntBody(body) {
      return Err(Invalid);
    }
    var target := CreateTarget(body, query, current);
    if target.None? {
      return Err(BadRequest("Workspace ID is required"));
    }
    if target.value.NaN? {
      return Err(Internal);
    }
    var w := target.value.value;
    if (caller, w) !in db.tables.memberships {
      return Err(Forbidden("You do not have access to this workspace"));
    }
    if w !in db.tables.workspaces {
      return Err(Internal);
    }
    var id := db.FreshId();
    db.tables := db.tables.(games := db.tables.games[id := NewGame(fields, w)]);
    r := Ok(id);
  }

  /** A body id sent as the string `"0"` is not passed over for the query or
      the header: it names workspace 0, and a caller without a membership
      there is refused with 403. */
  lemma ZeroTextRefused(s: DbState, caller: int, fields: GameFields, query: Option<string>, current: Option<JsNum>)
    requires Present(fields.name) && Present(fields.genre) && (caller, 0) !in s.memberships
    ensures CreateGame(s, caller, fields, Given(BodyString("0")), query, current).result
              == Err(Forbidden("You do not have access to this workspace"))
  {
    BodyTextIsTarget("0", query, current);
    assert Unsigned("0") == "0";
  }

  /** A game stored under the next id in an existing workspace. */
  lemma {:induction false} AddGameConsistent(s: DbState, game: Game, t: DbState)
    requires Consistent(s) && game.workspaceId in s.workspaces
    requires t == s.(games := s.games[s.nextId := game], nextId := s.nextId + 1)
    ensures Consistent(t)
  {
    IdsFreshBumped(s);
    FreshRowIdsBelow(s.games, s.nextId, game);
    assert IdsFresh(t);
    assert GamesLinked(t.games, t.workspaces);
    assert PuzzlesLinked(t.puzzles, t.games);
    assert ReportsLinked(t.reports, t.games, t.puzzles);
    assert Linked(t);
  }

  lemma CreateGameConsistent(s: DbState, caller: int, fields: GameFields, body: BodyId,
                             query: Option<string>, current: Option<JsNum>)
    requires Consistent(s)
    ensures Consistent(CreateGame(s, caller, fields, body, query, current).state)
  {
    var out := CreateGame(s, caller, fields, body, query, current);
    if out.result.Ok? {
      var w := CreateTarget(body, query, current).value.value;
      AddGameConsistent(s, NewGame(fields, w), out.state);
    }
  }

  /** A created game is listed to its creator under the workspace it was
      created in. */
  lemma {:induction false} CreateThenList(s: DbState, caller: int, fields: GameFields, body: BodyId,
                                          query: Option<string>, current: Option<JsNum>)
    requires CreateGame(s, caller, fields, body, query, current).result.Ok?
    ensures
      var out := CreateGame(s, caller, fields, body, query, current);
      var w := CreateTarget(body, query, current).value.value;
      var listed := ListGames(out.state, caller, Some(IntToString(w)), None);
      listed.Ok? && out.result.value in listed.value
  {
    var out := CreateGame(s, caller, fields, body, query, current);
    var w := CreateTarget(body, query, current).value.value;
    ListGamesByQuery(out.state, caller, w, None);
  }

  /** The body of `PUT /games/:id`. An absent name, genre, description or
      image is `None` and keeps the stored value; a date that is absent or
      empty is `None` and clears the stored date; `Some(None)` is an
      explicit null. */
  datatype GamePatch = GamePatch(
    name: Option<string>, genre: Option<string>, releaseDate: Option<int>, purchaseDate: Option<int>,
    description: Option<Option<string>>, imageUrl: Option<Option<string>>)

  /** The row `prisma.game.update` writes: the supplied fields replaced, the
      dates always rewritten, the workspace never touched. */
  function Patched(g: Game, p: GamePatch): (r: Game)
    ensures r.workspaceId == g.workspaceId
    ensures r.name == (if p.name.Some? then p.name.value else g.name)
    ensures r.genre == (if p.genre.Some? then p.genre.value else g.genre)
    ensures r.releaseDate == p.releaseDate && r.purchaseDate == p.purchaseDate
    ensures r.description == (if p.description.Some? then p.description.value else g.description)
    ensures r.imageUrl == (if p.imageUrl.Some? then p.imageUrl.value else g.imageUrl)
  {
    g.(name := if p.name.Some? then p.name.value else g.name,
       genre := if p.genre.Some? then p.genre.value else g.genre,
       releaseDate := p.releaseDate,
       purchaseDate := p.purchaseDate,
       description := if p.description.Some? then p.description.value else g.description,
       imageUrl := if p.imageUrl.Some? then p.imageUrl.value else g.imageUrl)
  }

  /** An update that supplies every field it can carry leaves a row with
      exactly those values: the patch loses nothing. */
  lemma PatchedTakesEverySuppliedField(g: Game, name: string, genre: string, release: Option<int>, purchase: Option<int>,
                                       description: Option<string>, imageUrl: Option<string>)
    ensures Patched(g, GamePatch(Some(name), Some(genre), release, purchase, Some(description), Some(imageUrl)))
      == Game(name, genre, release, purchase, description, imageUrl, g.workspaceId)
  {
  }

  /** `PUT /games/:id`: 404 for an unknown game, 403 unless the caller belongs
      to the game's workspace; otherwise the row is patched in place. */
  function UpdateGame(s: DbState, caller: int, id: int, patch: GamePatch): (out: Outcome<Game>)
    ensures id !in s.games ==> out == Outcome(Err(NotFound("Game not found")), s)
    ensures out.result.Err? ==> out.state == s
    ensures out.result.Ok? <==> id in s.games && (caller, s.games[id].workspaceId) in s.memberships
    ensures id in s.games && !out.result.Ok? ==> out.result == Err(Forbidden("You do not have access to this game"))
    ensures out.result.Ok? ==>
      && out.result.value == Patched(s.games[id], patch)
      && out.result.value.workspaceId == s.games[id].workspaceId
      && out.state == s.(games := s.games[id := Patched(s.games[id], patch)])
  {
    if id !in s.games then Outcome(Err(NotFound("Game not found")), s)
    else if (caller, s.games[id].workspaceId) !in s.memberships then
      Outcome(Err(Forbidden("You do not have access to this game")), s)
    else
      var g := Patched(s.games[id], patch);
      Outcome(Ok(g), s.(games := s.games[id := g]))
  }

  method HandleUpdateGame(db: Store.Db, caller: int, id: int, patch: GamePatch) returns (r: Result<Game>)
    modifies db
    ensures Outcome(r, db.tables) == UpdateGame(old(db.tables), caller, id, patch)
  {
    if id !in db.tables.games {
      return Err(NotFound("Game not found"));
    }
    var existing := db.tables.games[id];
    if (caller, existing.workspaceId) !in db.tables.memberships {
      return Err(Forbidden("You do not have access to this game"));
    }
    var g := Patched(existing, patch);
    db.tables := db.tables.(games := db.tables.games[id := g]);
    r := Ok(g);
  }

  /** Rewriting a stored game without moving it to another workspace. */
  lemma {:induction false} SetGameConsistent(s: DbState, id: int, game: Game, t: DbState)
    requires Consistent(s) && id in s.games && game.workspaceId == s.games[id].workspaceId
    requires t == s.(games := s.games[id := game])
    ensures Consistent(t)
  {
    assert t.games.Keys == s.games.Keys;
    assert IdsFresh(t);
    assert GamesLinked(t.games, t.workspaces);
    assert PuzzlesLinked(t.puzzles, t.games);
    assert ReportsLinked(t.reports, t.games, t.puzzles);
    assert Linked(t);
  }

  lemma UpdateGameConsistent(s: DbState, caller: int, id: int, patch: GamePatch)
    requires Consistent(s)
    ensures Consistent(UpdateGame(s, caller, id, patch).state)
  {
    var out := UpdateGame(s, caller, id, patch);
    if out.result.Ok? {
      SetGameConsistent(s, id, Patched(s.games[id], patch), out.state);
    }
  }

  /** `DELETE /games/:id`: 404 for an unknown game, 403 unless the caller
      belongs to the game's workspace; otherwise the game goes, and with it
      everything it owns. */
  function DeleteGame(s: DbState, caller: int, id: int): (out: Outcome<()>)
    ensures id !in s.games ==> out == Outcome(Err(NotFound("Game not found")), s)
    ensures out.result.Err? ==> out.state == s
    ensures out.result.Ok? <==> id in s.games && (caller, s.games[id].workspaceId) in s.memberships
    ensures id in s.games && !out.result.Ok? ==> out.result == Err(Forbidden("You do not have access to this game"))
    ensures out.result.Ok? ==> out.state == WithoutGame(s, id)
  {
    if id !in s.games then Outcome(Err(NotFound("Game not found")), s)
    else if (caller, s.games[id].workspaceId) !in s.memberships then
      Outcome(Err(Forbidden("You do not have access to this game")), s)
    else Outcome(Ok(()), WithoutGame(s, id))
  }

  method HandleDeleteGame(db: Store.Db, caller: int, id: int) returns (r: Result<()>)
    modifies db
    ensures Outcome(r, db.tables) == DeleteGame(old(db.tables), caller, id)
  {
    if id !in db.tables.games {
      return Err(NotFound("Game not found"));
    }
    if (caller, db.tables.games[id].workspaceId) !in db.tables.memberships {
      return Err(Forbidden("You do not have access to this game"));
    }
    db.tables := WithoutGame(db.tables, id);
    r := Ok(());
  }

  /** Deleting a game keeps the store consistent, and afterwards the game
      reads as unknown and owns no puzzle. */
  lemma {:induction false} DeleteGameConsistent(s: DbState, caller: int, id: int)
    requires Consistent(s)
    ensures Consistent(DeleteGame(s, caller, id).state)
    ensures DeleteGame(s, caller, id).result.Ok? ==>
      var t := DeleteGame(s, caller, id).state;
      && GetGame(t, Some(Num(s.games[id].workspaceId)), id) == Err(NotFound("Game not found"))
      && forall p :: p in t.puzzles ==> t.puzzles[p].gameId != id
  {
    if DeleteGame(s, caller, id).result.Ok? {
      WithoutGameConsistent(s, id);
    }
  }
}
