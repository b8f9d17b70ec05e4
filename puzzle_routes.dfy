/** The puzzle routes. None of them authenticates the caller or looks at a
    workspace: any client reads, creates, changes and deletes the puzzles of
    every workspace. */
module PuzzleRoutes {
  import opened Outcomes
  import opened Schema
  import Store

  // ---------------------------------------------------------------------
  // Reading

  /** A row of `GET /puzzles`: the puzzle with its game. */
  datatype PuzzleEntry = PuzzleEntry(puzzle: Puzzle, game: Game)

  /** `GET /puzzles`: every puzzle of every workspace, each with its game. */
  function ListPuzzles(s: DbState): (r: map<int, PuzzleEntry>)
    requires PuzzlesLinked(s.puzzles, s.games)
    ensures r.Keys == s.puzzles.Keys
    ensures forall p :: p in r ==> r[p].puzzle == s.puzzles[p] && r[p].game == s.games[s.puzzles[p].gameId]
  {
    map p | p in s.puzzles :: PuzzleEntry(s.puzzles[p], s.games[s.puzzles[p].gameId])
  }

  /** The body of `GET /puzzles/:id`: the puzzle, its game, its hints and its
      maintenance records. */
  datatype PuzzleDetail = PuzzleDetail(
    puzzle: Puzzle, game: Game, hints: map<int, Hint>, maintenance: map<int, Maintenance>)

  /** `GET /puzzles/:id/hints`: the hints that name the puzzle. An unknown
      puzzle has none; the route does not answer 404. */
  function HintsOfPuzzle(s: DbState, id: int): (r: map<int, Hint>)
    ensures forall h :: h in r <==> h in s.hints && s.hints[h].puzzleId == id
    ensures forall h :: h in r ==> r[h] == s.hints[h]
  {
    map h | h in s.hints && s.hints[h].puzzleId == id :: s.hints[h]
  }

  /** `GET /puzzles/:id/maintenance`: the maintenance records that name the
      puzzle. */
  function MaintenanceOfPuzzle(s: DbState, id: int): (r: map<int, Maintenance>)
    ensures forall m :: m in r <==> m in s.maintenance && s.maintenance[m].puzzleId == id
    ensures forall m :: m in r ==> r[m] == s.maintenance[m]
  {
    map m | m in s.maintenance && s.maintenance[m].puzzleId == id :: s.maintenance[m]
  }

  /** `GET /puzzles/:id`: 404 for an unknown id, otherwise the puzzle with
      its game, hints and maintenance records. */
  function GetPuzzle(s: DbState, id: int): (r: Result<PuzzleDetail>)
    requires PuzzlesLinked(s.puzzles, s.games)
    ensures r.Ok? <==> id in s.puzzles
    ensures r.Err? ==> r == Err(NotFound("Puzzle not found"))
    ensures r.Ok? ==>
      && r.value.puzzle == s.puzzles[id]
      && r.value.game == s.games[s.puzzles[id].gameId]
      && r.value.hints == HintsOfPuzzle(s, id)
      && r.value.maintenance == MaintenanceOfPuzzle(s, id)
  {
    if id !in s.puzzles then Err(NotFound("Puzzle not found"))
    else Ok(PuzzleDetail(s.puzzles[id], s.games[s.puzzles[id].gameId], HintsOfPuzzle(s, id), MaintenanceOfPuzzle(s, id)))
  }

  // ---------------------------------------------------------------------
  // Writing

  /** The body of `POST /puzzles`. `difficulty` is a number when given. */
  datatype PuzzleFields = PuzzleFields(
    title: Option<string>, description: Option<string>, status: Option<string>, difficulty: Option<int>,
    gameId: Field<int>, imageUrl: Option<string>)

  /** The row the create route writes: a missing or empty description is
      `''`, a missing or empty status `'active'`, a missing or zero difficulty
      1. */
  function NewPuzzle(f: PuzzleFields): (p: Puzzle)
    requires f.title.Some? && f.gameId.Given?
    ensures p.title == f.title.value && p.gameId == f.gameId.value && p.imageUrl == f.imageUrl
    ensures p.description == (if f.description.Some? then f.description.value else "")
    ensures p.status == (if Present(f.status) then f.status.value else "active")
    ensures p.difficulty == (if f.difficulty.Some? && f.difficulty.value != 0 then f.difficulty.value else 1)
    ensures p.difficulty != 0
  {
    Puzzle(f.title.value,
           if Present(f.description) then f.description.value else "",
           if Present(f.status) then f.status.value else "active",
           if f.difficulty.Some? && f.difficulty.value != 0 then f.difficulty.value else 1,
           f.gameId.value,
           f.imageUrl)
  }

  /** `POST /puzzles`: a non-empty title and an integer game id are required
      (400); a game id naming no game breaks the foreign key (500);
      otherwise the puzzle is stored under the next id. */
  function CreatePuzzle(s: DbState, f: PuzzleFields): (out: Outcome<Puzzle>)
    ensures out.result.Err? ==> out.state == s
    ensures !Present(f.title) || !f.gameId.Given? ==> out.result == Err(Invalid)
    ensures Present(f.title) && f.gameId.Given? && f.gameId.value !in s.games ==> out.result == Err(Internal)
    ensures out.result.Ok? <==> Present(f.title) && f.gameId.Given? && f.gameId.value in s.games
    ensures out.result.Ok? ==>
      && out.result.value == NewPuzzle(f)
      && out.state == s.(puzzles := s.puzzles[s.nextId := NewPuzzle(f)], nextId := s.nextId + 1)
  {
    if !Present(f.title) || !f.gameId.Given? then Outcome(Err(Invalid), s)
    else if f.gameId.value !in s.games then Outcome(Err(Internal), s)
    else Outcome(Ok(NewPuzzle(f)), s.(puzzles := s.puzzles[s.nextId := NewPuzzle(f)], nextId := s.nextId + 1))
  }

  method HandleCreatePuzzle(db: Store.Db, f: PuzzleFields) returns (r: Result<Puzzle>)
    modifies db
    ensures Outcome(r, db.tables) == CreatePuzzle(old(db.tables), f)
  {
    if !Present(f.title) || !f.gameId.Given? {
      return Err(Invalid);
    }
    if f.gameId.value !in db.tables.games {
      return Err(Internal);
    }
    var puzzle := NewPuzzle(f);
    var id := db.FreshId();
    db.tables := db.tables.(puzzles := db.tables.puzzles[id := puzzle]);
    r := Ok(puzzle);
  }

  /** A puzzle stored under the next id for an existing game. */
  lemma {:induction false} AddPuzzleConsistent(s: DbState, puzzle: Puzzle, t: DbState)
    requires Consistent(s) && puzzle.gameId in s.games
    requires t == s.(puzzles := s.puzzles[s.nextId := puzzle], nextId := s.nextId + 1)
    ensures Consistent(t)
  {
    IdsFreshBumped(s);
    FreshRowIdsBelow(s.puzzles, s.nextId, puzzle);
    assert IdsFresh(t);
    assert PuzzlesLinked(t.puzzles, t.games);
    assert HintsLinked(t.hints, t.puzzles);
    assert MaintenanceLinked(t.maintenance, t.puzzles);
    assert PuzzleImagesLinked(t.puzzleImages, t.puzzles);
    assert ReportsLinked(t.reports, t.games, t.puzzles) by {
      forall q | q in t.reports && t.reports[q].puzzleId.Some?
        ensures t.puzzles[t.reports[q].puzzleId.value] == s.puzzles[t.reports[q].puzzleId.value]
      {
        assert t.reports[q].puzzleId.value != s.nextId;
      }
    }
    assert Linked(t);
  }

  lemma CreatePuzzleConsistent(s: DbState, f: PuzzleFields)
    requires Consistent(s)
    ensures Consistent(CreatePuzzle(s, f).state)
  {
    var out := CreatePuzzle(s, f);
    if out.result.Ok? {
      AddPuzzleConsistent(s, NewPuzzle(f), out.state);
    }
  }

  /** A created puzzle reads back with the defaults filled in, no hints and
      no maintenance records. */
  lemma {:induction false} CreateThenGet(s: DbState, f: PuzzleFields)
    requires Consistent(s) && CreatePuzzle(s, f).result.Ok?
    ensures
      var t := CreatePuzzle(s, f).state;
      && PuzzlesLinked(t.puzzles, t.games)
      && GetPuzzle(t, s.nextId) == Ok(PuzzleDetail(NewPuzzle(f), s.games[f.gameId.value], map[], map[]))
  {
    var t := CreatePuzzle(s, f).state;
    AddPuzzleConsistent(s, NewPuzzle(f), t);
    assert HintsOfPuzzle(t, s.nextId) == map[] by {
      forall h | h in t.hints ensures t.hints[h].puzzleId != s.nextId {
        assert t.hints[h].puzzleId in s.puzzles;
      }
    }
    assert MaintenanceOfPuzzle(t, s.nextId) == map[] by {
      forall m | m in t.maintenance ensures t.maintenance[m].puzzleId != s.nextId {
        assert t.maintenance[m].puzzleId in s.puzzles;
      }
    }
  }

  /** The body of `PUT /puzzles/:id`: an absent field is `None`;
      `imageUrl: Some(None)` is an explicit null. */
  datatype PuzzlePatch = PuzzlePatch(
    title: Option<string>, description: Option<string>, status: Option<string>, difficulty: Option<int>,
    imageUrl: Option<Option<string>>)

  /** The row `prisma.puzzle.update` writes: the supplied fields replaced,
      the difficulty only for a truthy value, the game never touched. */
  function PatchedPuzzle(p: Puzzle, patch: PuzzlePatch): (r: Puzzle)
    ensures r.gameId == p.gameId
    ensures r.title == (if patch.title.Some? then patch.title.value else p.title)
    ensures r.description == (if patch.description.Some? then patch.description.value else p.description)
    ensures r.status == (if patch.status.Some? then patch.status.value else p.status)
    ensures r.difficulty == (if patch.difficulty.Some? && patch.difficulty.value != 0 then patch.difficulty.value else p.difficulty)
    ensures r.imageUrl == (if patch.imageUrl.Some? then patch.imageUrl.value else p.imageUrl)
  {
    p.(title := if patch.title.Some? then patch.title.value else p.title,
       description := if patch.description.Some? then patch.description.value else p.description,
       status := if patch.status.Some? then patch.status.value else p.status,
       difficulty := if patch.difficulty.Some? && patch.difficulty.value != 0 then patch.difficulty.value else p.difficulty,
       imageUrl := if patch.imageUrl.Some? then patch.imageUrl.value else p.imageUrl)
  }

  /** An empty patch changes nothing, and a zero difficulty is ignored like
      an absent one. */
  lemma PatchedPuzzleIdentity(p: Puzzle, zero: Option<int>)
    requires zero == None || zero == Some(0)
    ensures PatchedPuzzle(p, PuzzlePatch(None, None, None, zero, None)) == p
  {
  }

  /** `PUT /puzzles/:id`: 404 for an unknown id, otherwise the row is
      patched in place. */
  function UpdatePuzzle(s: DbState, id: int, patch: PuzzlePatch): (out: Outcome<Puzzle>)
    ensures id !in s.puzzles ==> out == Outcome(Err(NotFound("Puzzle not found")), s)
    ensures out.result.Ok? <==> id in s.puzzles
    ensures out.result.Ok? ==>
      && out.result.value == PatchedPuzzle(s.puzzles[id], patch)
      && out.result.value.gameId == s.puzzles[id].gameId
      && out.state == s.(puzzles := s.puzzles[id := PatchedPuzzle(s.puzzles[id], patch)])
  {
    if id !in s.puzzles then Outcome(Err(NotFound("Puzzle not found")), s)
    else
      var p := PatchedPuzzle(s.puzzles[id], patch);
      Outcome(Ok(p), s.(puzzles := s.puzzles[id := p]))
  }

  method HandleUpdatePuzzle(db: Store.Db, id: int, patch: PuzzlePatch) returns (r: Result<Puzzle>)
    modifies db
    ensures Outcome(r, db.tables) == UpdatePuzzle(old(db.tables), id, patch)
  {
    if id !in db.tables.puzzles {
      return Err(NotFound("Puzzle not found"));
    }
    var p := PatchedPuzzle(db.tables.puzzles[id], patch);
    db.tables := db.tables.(puzzles := db.tables.puzzles[id := p]);
    r := Ok(p);
  }

  /** Rewriting a stored puzzle without moving it to another game. */
  lemma {:induction false} SetPuzzleConsistent(s: DbState, id: int, puzzle: Puzzle, t: DbState)
    requires Consistent(s) && id in s.puzzles && puzzle.gameId == s.puzzles[id].gameId
    requires t == s.(puzzles := s.puzzles[id := puzzle])
    ensures Consistent(t)
  {
    assert t.puzzles.Keys == s.puzzles.Keys;
    assert IdsFresh(t);
    assert PuzzlesLinked(t.puzzles, t.games);
    assert HintsLinked(t.hints, t.puzzles);
    assert MaintenanceLinked(t.maintenance, t.puzzles);
    assert PuzzleImagesLinked(t.puzzleImages, t.puzzles);
    assert ReportsLinked(t.reports, t.games, t.puzzles);
    assert Linked(t);
  }

  lemma UpdatePuzzleConsistent(s: DbState, id: int, patch: PuzzlePatch)
    requires Consistent(s)
    ensures Consistent(UpdatePuzzle(s, id, patch).state)
  {
    var out := UpdatePuzzle(s, id, patch);
    if out.result.Ok? {
      SetPuzzleConsistent(s, id, PatchedPuzzle(s.puzzles[id], patch), out.state);
    }
  }

  /** `DELETE /puzzles/:id`: 404 for an unknown id, otherwise the puzzle goes
      with its hints, maintenance records and images. */
  function DeletePuzzle(s: DbState, id: int): (out: Outcome<()>)
    ensures id !in s.puzzles ==> out == Outcome(Err(NotFound("Puzzle not found")), s)
    ensures out.result.Ok? <==> id in s.puzzles
    ensures out.result.Ok? ==> out.state == WithoutPuzzle(s, id)
  {
    if id !in s.puzzles then Outcome(Err(NotFound("Puzzle not found")), s)
    else Outcome(Ok(()), WithoutPuzzle(s, id))
  }

  method HandleDeletePuzzle(db: Store.Db, id: int) returns (r: Result<()>)
    modifies db
    ensures Outcome(r, db.tables) == DeletePuzzle(old(db.tables), id)
  {
    if id !in db.tables.puzzles {
      return Err(NotFound("Puzzle not found"));
    }
    db.tables := WithoutPuzzle(db.tables, id);
    r := Ok(());
  }

  /** Deleting a puzzle keeps the store consistent; afterwards it reads as
      unknown and has neither hints nor maintenance records. */
  lemma {:induction false} DeletePuzzleConsistent(s: DbState, id: int)
    requires Consistent(s)
    ensures Consistent(DeletePuzzle(s, id).state)
    ensures
      var t := DeletePuzzle(s, id).state;
      && PuzzlesLinked(t.puzzles, t.games)
      && GetPuzzle(t, id) == Err(NotFound("Puzzle not found"))
      && HintsOfPuzzle(t, id) == map[]
      && MaintenanceOfPuzzle(t, id) == map[]
  {
    var t := DeletePuzzle(s, id).state;
    if id in s.puzzles {
      WithoutPuzzleConsistent(s, id);
    }
    NoChildrenOfMissingPuzzle(t, id);
  }

  /** A puzzle id that names no puzzle is named by no hint and no
      maintenance record. */
  lemma NoChildrenOfMissingPuzzle(s: DbState, id: int)
    requires HintsLinked(s.hints, s.puzzles) && MaintenanceLinked(s.maintenance, s.puzzles)
    requires id !in s.puzzles
    ensures HintsOfPuzzle(s, id) == map[] && MaintenanceOfPuzzle(s, id) == map[]
  {
    forall h | h in s.hints ensures s.hints[h].puzzleId != id {
      assert s.hints[h].puzzleId in s.puzzles;
    }
    forall m | m in s.maintenance ensures s.maintenance[m].puzzleId != id {
      assert s.maintenance[m].puzzleId in s.puzzles;
    }
    assert HintsOfPuzzle(s, id).Keys == {};
    assert MaintenanceOfPuzzle(s, id).Keys == {};
  }
}
