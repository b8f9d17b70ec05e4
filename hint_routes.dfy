/** The hint routes. Only the list authenticates the caller and scopes to a
    workspace; reading, creating, changing and deleting one hint is open to
    any client. */
module HintRoutes {
  import opened Outcomes
  import opened Js
  import opened Schema
  import Store

  // ---------------------------------------------------------------------
  // Reading

  /** `GET /hints`: the hints whose puzzle belongs to a game of the workspace
      the request names, when the caller is a member of it; otherwise an
      empty list. */
  function ListHints(s: DbState, caller: int, query: Option<string>, current: Option<JsNum>): (r: Result<map<int, Hint>>)
    ensures r.Err? <==> RequestedWorkspace(query, current) == Some(NaN)
    ensures r.Err? ==> r.error == Internal
    ensures r.Ok? ==> forall h :: h in r.value <==>
      && h in s.hints
      && exists w :: ListScope(s, caller, query, current) == Ok(Some(w)) && PuzzleInWorkspace(s, s.hints[h].puzzleId, w)
    ensures r.Ok? ==> forall h :: h in r.value ==> r.value[h] == s.hints[h]
  {
    match ListScope(s, caller, query, current)
    case Err(e) => Err(e)
    case Ok(None) => Ok(map[])
    case Ok(Some(w)) => Ok(map h | h in s.hints && PuzzleInWorkspace(s, s.hints[h].puzzleId, w) :: s.hints[h])
  }

  /** Naming workspace `w` in the query string lists exactly the hints of
      `w`'s puzzles when the caller is a member of `w`, and nothing
      otherwise. */
  lemma {:induction false} ListHintsByQuery(s: DbState, caller: int, w: int, current: Option<JsNum>)
    ensures ListHints(s, caller, Some(IntToString(w)), current).Ok?
    ensures forall h :: h in ListHints(s, caller, Some(IntToString(w)), current).value <==>
      h in s.hints && PuzzleInWorkspace(s, s.hints[h].puzzleId, w) && (caller, w) in s.memberships
  {
    NumberOfIntToString(w);
    assert RequestedWorkspace(Some(IntToString(w)), current) == Some(Num(w));
  }

  /** The body of `GET /hints/:id`: the hint with its puzzle and the puzzle's
      game. */
  datatype HintDetail = HintDetail(hint: Hint, puzzle: Puzzle, game: Game)

  /** `GET /hints/:id`: 404 for an unknown id; no caller is consulted. */
  function GetHint(s: DbState, id: int): (r: Result<HintDetail>)
    requires HintsLinked(s.hints, s.puzzles) && PuzzlesLinked(s.puzzles, s.games)
    ensures r.Ok? <==> id in s.hints
    ensures r.Err? ==> r == Err(NotFound("Hint not found"))
    ensures r.Ok? ==>
      && r.value.hint == s.hints[id]
      && r.value.puzzle == s.puzzles[s.hints[id].puzzleId]
      && r.value.game == s.games[r.value.puzzle.gameId]
  {
    if id !in s.hints then Err(NotFound("Hint not found"))
    else
      var puzzle := s.puzzles[s.hints[id].puzzleId];
      Ok(HintDetail(s.hints[id], puzzle, s.games[puzzle.gameId]))
  }

  // ---------------------------------------------------------------------
  // Writing

  /** `POST /hints`: non-empty content and an integer puzzle id are required
      (400); a puzzle id naming no puzzle breaks the foreign key (500); the
      flags default to false. */
  function CreateHint(s: DbState, content: Option<string>, isPremium: Option<bool>, isUsed: Option<bool>,
                      puzzleId: Field<int>): (out: Outcome<Hint>)
    ensures out.result.Err? ==> out.state == s
    ensures !Present(content) || !puzzleId.Given? ==> out.result == Err(Invalid)
    ensures Present(content) && puzzleId.Given? && puzzleId.value !in s.puzzles ==> out.result == Err(Internal)
    ensures out.result.Ok? <==> Present(content) && puzzleId.Given? && puzzleId.value in s.puzzles
    ensures out.result.Ok? ==>
      && out.result.value == Hint(content.value, isPremium == Some(true), isUsed == Some(true), puzzleId.value)
      && out.state == s.(hints := s.hints[s.nextId := out.result.value], nextId := s.nextId + 1)
  {
    if !Present(content) || !puzzleId.Given? then Outcome(Err(Invalid), s)
    else if puzzleId.value !in s.puzzles then Outcome(Err(Internal), s)
    else
      var hint := Hint(content.value, isPremium.Some? && isPremium.value, isUsed.Some? && isUsed.value, puzzleId.value);
      Outcome(Ok(hint), s.(hints := s.hints[s.nextId := hint], nextId := s.nextId + 1))
  }

  method HandleCreateHint(db: Store.Db, content: Option<string>, isPremium: Option<bool>, isUsed: Option<bool>,
                          puzzleId: Field<int>) returns (r: Result<Hint>)
    modifies db
    ensures Outcome(r, db.tables) == CreateHint(old(db.tables), content, isPremium, isUsed, puzzleId)
  {
    if !Present(content) || !puzzleId.Given? {
      return Err(Invalid);
    }
    if puzzleId.value !in db.tables.puzzles {
      return Err(Internal);
    }
    var hint := Hint(content.value, isPremium.Some? && isPremium.value, isUsed.Some? && isUsed.value, puzzleId.value);
    var id := db.FreshId();
    db.tables := db.tables.(hints := db.tables.hints[id := hint]);
    r := Ok(hint);
  }

  /** A hint stored under the next id for an existing puzzle. */
  lemma {:induction false} AddHintConsistent(s: DbState, hint: Hint, t: DbState)
    requires Consistent(s) && hint.puzzleId in s.puzzles
    requires t == s.(hints := s.hints[s.nextId := hint], nextId := s.nextId + 1)
    ensures Consistent(t)
  {
    IdsFreshBumped(s);
    FreshRowIdsBelow(s.hints, s.nextId, hint);
    assert IdsFresh(t);
    assert HintsLinked(t.hints, t.puzzles);
    assert Linked(t);
  }

  lemma CreateHintConsistent(s: DbState, content: Option<string>, isPremium: Option<bool>, isUsed: Option<bool>,
                             puzzleId: Field<int>)
    requires Consistent(s)
    ensures Consistent(CreateHint(s, content, isPremium, isUsed, puzzleId).state)
  {
    var out := CreateHint(s, content, isPremium, isUsed, puzzleId);
    if out.result.Ok? {
      AddHintConsistent(s, out.result.value, out.state);
    }
  }

  /** A created hint reads back unchanged under the id it was given, with the
      puzzle it names. */
  lemma {:induction false} CreateThenGet(s: DbState, content: Option<string>, isPremium: Option<bool>, isUsed: Option<bool>,
                                         puzzleId: Field<int>)
    requires Consistent(s) && CreateHint(s, content, isPremium, isUsed, puzzleId).result.Ok?
    ensures
      var out := CreateHint(s, content, isPremium, isUsed, puzzleId);
      var t := out.state;
      && HintsLinked(t.hints, t.puzzles) && PuzzlesLinked(t.puzzles, t.games)
      && GetHint(t, s.nextId).Ok?
      && GetHint(t, s.nextId).value.hint == out.result.value
      && GetHint(t, s.nextId).value.puzzle == s.puzzles[puzzleId.value]
  {
    var out := CreateHint(s, content, isPremium, isUsed, puzzleId);
    AddHintConsistent(s, out.result.value, out.state);
  }

  /** The body of `PUT /hints/:id`: an absent field is `None` and keeps the
      stored value. */
  datatype HintPatch = HintPatch(content: Option<string>, isPremium: Option<bool>, isUsed: Option<bool>)

  /** The row `prisma.hint.update` writes: content and flags as supplied, the
      puzzle never touched. */
  function PatchedHint(h: Hint, patch: HintPatch): (r: Hint)
    ensures r.puzzleId == h.puzzleId
    ensures r.content == (if patch.content.Some? then patch.content.value else h.content)
    ensures r.isPremium == (if patch.isPremium.Some? then patch.isPremium.value else h.isPremium)
    ensures r.isUsed == (if patch.isUsed.Some? then patch.isUsed.value else h.isUsed)
  {
    h.(content := if patch.content.Some? then patch.content.value else h.content,
       isPremium := if patch.isPremium.Some? then patch.isPremium.value else h.isPremium,
       isUsed := if patch.isUsed.Some? then patch.isUsed.value else h.isUsed)
  }

  /** `PUT /hints/:id`: 404 for an unknown id, otherwise the row is patched
      in place. */
  function UpdateHint(s: DbState, id: int, patch: HintPatch): (out: Outcome<Hint>)
    ensures id !in s.hints ==> out == Outcome(Err(NotFound("Hint not found")), s)
    ensures out.result.Ok? <==> id in s.hints
    ensures out.result.Ok? ==>
      && out.result.value == PatchedHint(s.hints[id], patch)
      && out.result.value.puzzleId == s.hints[id].puzzleId
      && out.state == s.(hints := s.hints[id := PatchedHint(s.hints[id], patch)])
  {
    if id !in s.hints then Outcome(Err(NotFound("Hint not found")), s)
    else
      var h := PatchedHint(s.hints[id], patch);
      Outcome(Ok(h), s.(hints := s.hints[id := h]))
  }

  method HandleUpdateHint(db: Store.Db, id: int, patch: HintPatch) returns (r: Result<Hint>)
    modifies db
    ensures Outcome(r, db.tables) == UpdateHint(old(db.tables), id, patch)
  {
    if id !in db.tables.hints {
      return Err(NotFound("Hint not found"));
    }
    var h := PatchedHint(db.tables.hints[id], patch);
    db.tables := db.tables.(hints := db.tables.hints[id := h]);
    r := Ok(h);
  }

  lemma UpdateHintConsistent(s: DbState, id: int, patch: HintPatch)
    requires Consistent(s)
    ensures Consistent(UpdateHint(s, id, patch).state)
  {
    var t := UpdateHint(s, id, patch).state;
    if id in s.hints {
      assert t.hints.Keys == s.hints.Keys;
      assert IdsFresh(t);
      assert HintsLinked(t.hints, t.puzzles);
      assert Linked(t);
    }
  }

  /** `DELETE /hints/:id`: 404 for an unknown id, otherwise the row goes. */
  function DeleteHint(s: DbState, id: int): (out: Outcome<()>)
    ensures id !in s.hints ==> out == Outcome(Err(NotFound("Hint not found")), s)
    ensures out.result.Ok? <==> id in s.hints
    ensures out.result.Ok? ==> out.state == s.(hints := s.hints - {id})
  {
    if id !in s.hints then Outcome(Err(NotFound("Hint not found")), s)
    else Outcome(Ok(()), s.(hints := s.hints - {id}))
  }

  method HandleDeleteHint(db: Store.Db, id: int) returns (r: Result<()>)
    modifies db
    ensures Outcome(r, db.tables) == DeleteHint(old(db.tables), id)
  {
    if id !in db.tables.hints {
      return Err(NotFound("Hint not found"));
    }
    db.tables := db.tables.(hints := db.tables.hints - {id});
    r := Ok(());
  }

  /** Deleting a hint keeps the store consistent, and the hint then reads as
      unknown. */
  lemma DeleteHintConsistent(s: DbState, id: int)
    requires Consistent(s)
    ensures Consistent(DeleteHint(s, id).state)
    ensures
      var t := DeleteHint(s, id).state;
      HintsLinked(t.hints, t.puzzles) && PuzzlesLinked(t.puzzles, t.games) && GetHint(t, id) == Err(NotFound("Hint not found"))
  {
    var t := DeleteHint(s, id).state;
    SubMapIdsBelow(t.hints, s.hints, s.nextId);
    assert IdsFresh(t);
    assert Linked(t);
  }
}
