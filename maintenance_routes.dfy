/** The maintenance routes. Only the list authenticates the caller and
    scopes to a workspace; reading, creating, changing and deleting one
    record is open to any client. Dates are timestamps. */
module MaintenanceRoutes {
  import opened Outcomes
  import opened Js
  import opened Schema
  import Store

  // ---------------------------------------------------------------------
  // Reading

  /** `GET /maintenance`: the records whose puzzle belongs to a game of the
      workspace the request names, when the caller is a member of it;
      otherwise an empty list. */
  function ListMaintenance(s: DbState, caller: int, query: Option<string>, current: Option<JsNum>): (r: Result<map<int, Maintenance>>)
    ensures r.Err? <==> RequestedWorkspace(query, current) == Some(NaN)
    ensures r.Err? ==> r.error == Internal
    ensures r.Ok? ==> forall m :: m in r.value <==>
      && m in s.maintenance
      && exists w :: ListScope(s, caller, query, current) == Ok(Some(w)) && PuzzleInWorkspace(s, s.maintenance[m].puzzleId, w)
    ensures r.Ok? ==> forall m :: m in r.value ==> r.value[m] == s.maintenance[m]
  {
    match ListScope(s, caller, query, current)
    case Err(e) => Err(e)
    case Ok(None) => Ok(map[])
    case Ok(Some(w)) =>
      Ok(map m | m in s.maintenance && PuzzleInWorkspace(s, s.maintenance[m].puzzleId, w) :: s.maintenance[m])
  }

  /** Naming workspace `w` in the query string lists exactly the records of
      `w`'s puzzles when the caller is a member of `w`, and nothing
      otherwise. */
  lemma {:induction false} ListMaintenanceByQuery(s: DbState, caller: int, w: int, current: Option<JsNum>)
    ensures ListMaintenance(s, caller, Some(IntToString(w)), current).Ok?
    ensures forall m :: m in ListMaintenance(s, caller, Some(IntToString(w)), current).value <==>
      m in s.maintenance && PuzzleInWorkspace(s, s.maintenance[m].puzzleId, w) && (caller, w) in s.memberships
  {
    NumberOfIntToString(w);
    assert RequestedWorkspace(Some(IntToString(w)), current) == Some(Num(w));
  }

  /** The body of `GET /maintenance/:id`: the record with its puzzle and the
      puzzle's game. */
  datatype MaintenanceDetail = MaintenanceDetail(record: Maintenance, puzzle: Puzzle, game: Game)

  /** `GET /maintenance/:id`: 404 for an unknown id; no caller is consulted. */
  function GetMaintenance(s: DbState, id: int): (r: Result<MaintenanceDetail>)
    requires MaintenanceLinked(s.maintenance, s.puzzles) && PuzzlesLinked(s.puzzles, s.games)
    ensures r.Ok? <==> id in s.maintenance
    ensures r.Err? ==> r == Err(NotFound("Maintenance record not found"))
    ensures r.Ok? ==>
      && r.value.record == s.maintenance[id]
      && r.value.puzzle == s.puzzles[s.maintenance[id].puzzleId]
      && r.value.game == s.games[r.value.puzzle.gameId]
  {
    if id !in s.maintenance then Err(NotFound("Maintenance record not found"))
    else
      var puzzle := s.puzzles[s.maintenance[id].puzzleId];
      Ok(MaintenanceDetail(s.maintenance[id], puzzle, s.games[puzzle.gameId]))
  }

  // ---------------------------------------------------------------------
  // Writing

  /** `POST /maintenance`: a non-empty description, an ISO-8601 fix date and
      an integer puzzle id are required (400); a puzzle id naming no puzzle
      breaks the foreign key (500); a missing or empty status is
      `'planned'`. */
  function CreateMaintenance(s: DbState, description: Option<string>, status: Option<string>, fixDate: Field<int>,
                             puzzleId: Field<int>): (out: Outcome<Maintenance>)
    ensures out.result.Err? ==> out.state == s
    ensures !Present(description) || !fixDate.Given? || !puzzleId.Given? ==> out.result == Err(Invalid)
    ensures Present(description) && fixDate.Given? && puzzleId.Given? && puzzleId.value !in s.puzzles ==>
      out.result == Err(Internal)
    ensures out.result.Ok? <==> Present(description) && fixDate.Given? && puzzleId.Given? && puzzleId.value in s.puzzles
    ensures out.result.Ok? ==>
      && out.result.value == Maintenance(description.value, if Present(status) then status.value else "planned",
                                         fixDate.value, puzzleId.value)
      && out.state == s.(maintenance := s.maintenance[s.nextId := out.result.value], nextId := s.nextId + 1)
  {
    if !Present(description) || !fixDate.Given? || !puzzleId.Given? then Outcome(Err(Invalid), s)
    else if puzzleId.value !in s.puzzles then Outcome(Err(Internal), s)
    else
      var record := Maintenance(description.value, if Present(status) then status.value else "planned",
                                fixDate.value, puzzleId.value);
      Outcome(Ok(record), s.(maintenance := s.maintenance[s.nextId := record], nextId := s.nextId + 1))
  }

  method HandleCreateMaintenance(db: Store.Db, description: Option<string>, status: Option<string>, fixDate: Field<int>,
                                 puzzleId: Field<int>) returns (r: Result<Maintenance>)
    modifies db
    ensures Outcome(r, db.tables) == CreateMaintenance(old(db.tables), description, status, fixDate, puzzleId)
  {
    if !Present(description) || !fixDate.Given? || !puzzleId.Given? {
      return Err(Invalid);
    }
    if puzzleId.value !in db.tables.puzzles {
      return Err(Internal);
    }
    var record := Maintenance(description.value, if Present(status) then status.value else "planned",
                              fixDate.value, puzzleId.value);
    var id := db.FreshId();
    db.tables := db.tables.(maintenance := db.tables.maintenance[id := record]);
    r := Ok(record);
  }

  /** A record stored under the next id for an existing puzzle. */
  lemma {:induction false} AddMaintenanceConsistent(s: DbState, record: Maintenance, t: DbState)
    requires Consistent(s) && record.puzzleId in s.puzzles
    requires t == s.(maintenance := s.maintenance[s.nextId := record], nextId := s.nextId + 1)
    ensures Consistent(t)
  {
    IdsFreshBumped(s);
    FreshRowIdsBelow(s.maintenance, s.nextId, record);
    assert IdsFresh(t);
    assert MaintenanceLinked(t.maintenance, t.puzzles);
    assert Linked(t);
  }

  lemma CreateMaintenanceConsistent(s: DbState, description: Option<string>, status: Option<string>, fixDate: Field<int>,
                                    puzzleId: Field<int>)
    requires Consistent(s)
    ensures Consistent(CreateMaintenance(s, description, status, fixDate, puzzleId).state)
  {
    var out := CreateMaintenance(s, description, status, fixDate, puzzleId);
    if out.result.Ok? {
      AddMaintenanceConsistent(s, out.result.value, out.state);
    }
  }

  /** A created record reads back unchanged under the id it was given, with
      the puzzle it names. */
  lemma {:induction false} CreateThenGet(s: DbState, description: Option<string>, status: Option<string>, fixDate: Field<int>,
                                         puzzleId: Field<int>)
    requires Consistent(s) && CreateMaintenance(s, description, status, fixDate, puzzleId).result.Ok?
    ensures
      var out := CreateMaintenance(s, description, status, fixDate, puzzleId);
      var t := out.state;
      && MaintenanceLinked(t.maintenance, t.puzzles) && PuzzlesLinked(t.puzzles, t.games)
      && GetMaintenance(t, s.nextId).Ok?
      && GetMaintenance(t, s.nextId).value.record == out.result.value
      && GetMaintenance(t, s.nextId).value.puzzle == s.puzzles[puzzleId.value]
  {
    var out := CreateMaintenance(s, description, status, fixDate, puzzleId);
    AddMaintenanceConsistent(s, out.result.value, out.state);
  }

  /** The body of `PUT /maintenance/:id`: an absent field is `None` and keeps
      the stored value; so does an absent or empty fix date. */
  datatype MaintenancePatch = MaintenancePatch(description: Option<string>, status: Option<string>, fixDate: Option<int>)

  /** The row `prisma.maintenance.update` writes: the supplied fields, the
      puzzle never touched. */
  function PatchedMaintenance(m: Maintenance, patch: MaintenancePatch): (r: Maintenance)
    ensures r.puzzleId == m.puzzleId
    ensures r.description == (if patch.description.Some? then patch.description.value else m.description)
    ensures r.status == (if patch.status.Some? then patch.status.value else m.status)
    ensures r.fixDate == (if patch.fixDate.Some? then patch.fixDate.value else m.fixDate)
  {
    m.(description := if patch.description.Some? then patch.description.value else m.description,
       status := if patch.status.Some? then patch.status.value else m.status,
       fixDate := if patch.fixDate.Some? then patch.fixDate.value else m.fixDate)
  }

  /** `PUT /maintenance/:id`: 404 for an unknown id, otherwise the row is
      patched in place. */
  function UpdateMaintenance(s: DbState, id: int, patch: MaintenancePatch): (out: Outcome<Maintenance>)
    ensures id !in s.maintenance ==> out == Outcome(Err(NotFound("Maintenance record not found")), s)
    ensures out.result.Ok? <==> id in s.maintenance
    ensures out.result.Ok? ==>
      && out.result.value == PatchedMaintenance(s.maintenance[id], patch)
      && out.result.value.puzzleId == s.maintenance[id].puzzleId
      && (patch.fixDate.None? ==> out.result.value.fixDate == s.maintenance[id].fixDate)
      && out.state == s.(maintenance := s.maintenance[id := PatchedMaintenance(s.maintenance[id], patch)])
  {
    if id !in s.maintenance then Outcome(Err(NotFound("Maintenance record not found")), s)
    else
      var m := PatchedMaintenance(s.maintenance[id], patch);
      Outcome(Ok(m), s.(maintenance := s.maintenance[id := m]))
  }

  method HandleUpdateMaintenance(db: Store.Db, id: int, patch: MaintenancePatch) returns (r: Result<Maintenance>)
    modifies db
    ensures Outcome(r, db.tables) == UpdateMaintenance(old(db.tables), id, patch)
  {
    if id !in db.tables.maintenance {
      return Err(NotFound("Maintenance record not found"));
    }
    var m := PatchedMaintenance(db.tables.maintenance[id], patch);
    db.tables := db.tables.(maintenance := db.tables.maintenance[id := m]);
    r := Ok(m);
  }

  lemma UpdateMaintenanceConsistent(s: DbState, id: int, patch: MaintenancePatch)
    requires Consistent(s)
    ensures Consistent(UpdateMaintenance(s, id, patch).state)
  {
    var t := UpdateMaintenance(s, id, patch).state;
    if id in s.maintenance {
      assert t.maintenance.Keys == s.maintenance.Keys;
      assert IdsFresh(t);
      assert MaintenanceLinked(t.maintenance, t.puzzles);
      assert Linked(t);
    }
  }

  /** `DELETE /maintenance/:id`: 404 for an unknown id, otherwise the row
      goes. */
  function DeleteMaintenance(s: DbState, id: int): (out: Outcome<()>)
    ensures id !in s.maintenance ==> out == Outcome(Err(NotFound("Maintenance record not found")), s)
    ensures out.result.Ok? <==> id in s.maintenance
    ensures out.result.Ok? ==> out.state == s.(maintenance := s.maintenance - {id})
  {
    if id !in s.maintenance then Outcome(Err(NotFound("Maintenance record not found")), s)
    else Outcome(Ok(()), s.(maintenance := s.maintenance - {id}))
  }

  method HandleDeleteMaintenance(db: Store.Db, id: int) returns (r: Result<()>)
    modifies db
    ensures Outcome(r, db.tables) == DeleteMaintenance(old(db.tables), id)
  {
    if id !in db.tables.maintenance {
      return Err(NotFound("Maintenance record not found"));
    }
    db.tables := db.tables.(maintenance := db.tables.maintenance - {id});
    r := Ok(());
  }

  /** Deleting a record keeps the store consistent, and the record then
      reads as unknown. */
  lemma DeleteMaintenanceConsistent(s: DbState, id: int)
    requires Consistent(s)
    ensures Consistent(DeleteMaintenance(s, id).state)
    ensures
      var t := DeleteMaintenance(s, id).state;
      && MaintenanceLinked(t.maintenance, t.puzzles) && PuzzlesLinked(t.puzzles, t.games)
      && GetMaintenance(t, id) == Err(NotFound("Maintenance record not found"))
  {
    var t := DeleteMaintenance(s, id).state;
    SubMapIdsBelow(t.maintenance, s.maintenance, s.nextId);
    assert IdsFresh(t);
    assert Linked(t);
  }
}
