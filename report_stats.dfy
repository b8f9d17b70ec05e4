/** `GET /reports/stats`: the reports of a workspace dated on or after a
    start time, counted per game and per puzzle. The handler walks the
    selected reports once, opening a game's counters the first time one of
    its reports comes by and a puzzle's counters the first time a report
    naming that puzzle does. The start time is the parameter `since`. */
module ReportStats {
  import opened Outcomes
  import opened Js
  import opened Schema
  import opened Ordering
  import ReportRoutes
  import Store

  // ---------------------------------------------------------------------
  // Counters

  datatype Counts = Counts(total: nat, open: nat, inProgress: nat, resolved: nat)

  const NoCounts := Counts(0, 0, 0, 0)

  /** One more report of status `st`: the total and the counter of that
      status go up by one. */
  function Bump(c: Counts, st: ReportStatus): (r: Counts)
    ensures r.total == c.total + 1
    ensures r.open == c.open + (if st == Open then 1 else 0)
    ensures r.inProgress == c.inProgress + (if st == InProgress then 1 else 0)
    ensures r.resolved == c.resolved + (if st == Resolved then 1 else 0)
  {
    match st
    case Open => c.(total := c.total + 1, open := c.open + 1)
    case InProgress => c.(total := c.total + 1, inProgress := c.inProgress + 1)
    case Resolved => c.(total := c.total + 1, resolved := c.resolved + 1)
  }

  datatype PuzzleStats = PuzzleStats(title: string, counts: Counts)

  /** The entry of one game; `puzzles` is keyed by puzzle id, which is also
      the order `Object.values` lists integer keys in. */
  datatype GameStats = GameStats(gameName: string, counts: Counts, puzzles: map<int, PuzzleStats>)

  /** What the handler reads of one report: its game, the game's name, its
      status, its puzzle id and the puzzle's title. */
  datatype StatsRow = StatsRow(gameId: int, gameName: string, status: ReportStatus,
                               puzzleId: Option<int>, puzzleTitle: string)

  /** `if (report.puzzleId)`: a report counts for a puzzle when its puzzle id
      is present and not 0. */
  predicate NamesPuzzle(row: StatsRow) {
    row.puzzleId.Some? && row.puzzleId.value != 0
  }

  // ---------------------------------------------------------------------
  // The counting loop

  /** The counters after one more report. */
  function AddToGame(game: GameStats, row: StatsRow): GameStats {
    var puzzles :=
      if NamesPuzzle(row) then
        var p := row.puzzleId.value;
        var entry := if p in game.puzzles then game.puzzles[p] else PuzzleStats(row.puzzleTitle, NoCounts);
        game.puzzles[p := entry.(counts := Bump(entry.counts, row.status))]
      else game.puzzles;
    GameStats(game.gameName, Bump(game.counts, row.status), puzzles)
  }

  function Step(stats: map<int, GameStats>, row: StatsRow): map<int, GameStats> {
    var game := if row.gameId in stats then stats[row.gameId] else GameStats(row.gameName, NoCounts, map[]);
    stats[row.gameId := AddToGame(game, row)]
  }

  /** The dictionary after the loop has seen `rows`. */
  function Tally(rows: seq<StatsRow>): map<int, GameStats>
    decreases |rows|
  {
    if rows == [] then map[] else Step(Tally(rows[..|rows| - 1]), rows[|rows| - 1])
  }

  /** The counter increments the loop applies to a game and, for a report
      naming a puzzle, to that puzzle. */
  method Increment(c: Counts, st: ReportStatus) returns (r: Counts)
    ensures r == Bump(c, st)
  {
    r := c.(total := c.total + 1);
    if st == Open {
      r := r.(open := r.open + 1);
    } else if st == InProgress {
      r := r.(inProgress := r.inProgress + 1);
    } else if st == Resolved {
      r := r.(resolved := r.resolved + 1);
    }
  }

  /** The `forEach` over the selected reports. */
  method ComputeStats(rows: seq<StatsRow>) returns (stats: map<int, GameStats>)
    ensures stats == Tally(rows)
  {
    stats := map[];
    var i := 0;
    while i < |rows|
      invariant 0 <= i <= |rows|
      invariant stats == Tally(rows[..i])
    {
      var row := rows[i];
      var game: GameStats;
      ghost var before: GameStats;
      if row.gameId !in stats {
        game := GameStats(row.gameName, NoCounts, map[]);
      } else {
        game := stats[row.gameId];
      }
      before := game;
      var counts := Increment(game.counts, row.status);
      game := game.(counts := counts);
      if NamesPuzzle(row) {
        var p := row.puzzleId.value;
        var entry: PuzzleStats;
        if p !in game.puzzles {
          entry := PuzzleStats(row.puzzleTitle, NoCounts);
        } else {
          entry := game.puzzles[p];
        }
        var pc := Increment(entry.counts, row.status);
        game := game.(puzzles := game.puzzles[p := entry.(counts := pc)]);
      }
      assert game == AddToGame(before, row);
      assert rows[..i + 1][..i] == rows[..i];
      assert Tally(rows[..i + 1]) == Step(stats, row);
      stats := stats[row.gameId := game];
      i := i + 1;
    }
    assert rows[..|rows|] == rows;
  }

  // ---------------------------------------------------------------------
  // What the counters mean

  /** The rows that pass `keep`, in order. */
  function Keep(rows: seq<StatsRow>, keep: StatsRow -> bool): (r: seq<StatsRow>)
    ensures |r| <= |rows|
    decreases |rows|
  {
    if rows == [] then []
    else
      var last := rows[|rows| - 1];
      Keep(rows[..|rows| - 1], keep) + (if keep(last) then [last] else [])
  }

  /** `Keep` holds exactly the rows that pass. */
  lemma {:induction false} KeepMembers(rows: seq<StatsRow>, keep: StatsRow -> bool, x: StatsRow)
    ensures x in Keep(rows, keep) <==> x in rows && keep(x)
    decreases |rows|
  {
    if rows != [] {
      var init := rows[..|rows| - 1];
      assert rows == init + [rows[|rows| - 1]];
      KeepMembers(init, keep, x);
    }
  }

  lemma KeepAppend(rows: seq<StatsRow>, row: StatsRow, keep: StatsRow -> bool)
    ensures Keep(rows + [row], keep) == Keep(rows, keep) + (if keep(row) then [row] else [])
  {
    assert (rows + [row])[..|rows|] == rows;
  }

  function GameIs(g: int): StatsRow -> bool {
    (x: StatsRow) => x.gameId == g
  }

  function PuzzleIs(p: int): StatsRow -> bool {
    (x: StatsRow) => NamesPuzzle(x) && x.puzzleId.value == p
  }

  const Naming: StatsRow -> bool := (x: StatsRow) => NamesPuzzle(x)

  function StatusIs(st: ReportStatus): StatsRow -> bool {
    (x: StatsRow) => x.status == st
  }

  /** The reports of game `g`. */
  function OfGame(rows: seq<StatsRow>, g: int): seq<StatsRow> {
    Keep(rows, GameIs(g))
  }

  /** The reports that count for puzzle `p`. */
  function OfPuzzle(rows: seq<StatsRow>, p: int): seq<StatsRow> {
    Keep(rows, PuzzleIs(p))
  }

  /** The reports that count for some puzzle. */
  function Named(rows: seq<StatsRow>): seq<StatsRow> {
    Keep(rows, Naming)
  }

  function WithStatus(rows: seq<StatsRow>, st: ReportStatus): seq<StatsRow> {
    Keep(rows, StatusIs(st))
  }

  /** The counters a list of reports should show, counted directly. */
  function Census(rows: seq<StatsRow>): Counts {
    Counts(|rows|, |WithStatus(rows, Open)|, |WithStatus(rows, InProgress)|, |WithStatus(rows, Resolved)|)
  }

  /** Every report has exactly one of the three statuses, so the three
      status counters add up to the total. */
  lemma {:induction false} CensusPartition(rows: seq<StatsRow>)
    ensures Census(rows).open + Census(rows).inProgress + Census(rows).resolved == Census(rows).total
    decreases |rows|
  {
    if rows != [] {
      var init := rows[..|rows| - 1];
      var last := rows[|rows| - 1];
      assert rows == init + [last];
      CensusPartition(init);
      KeepAppend(init, last, StatusIs(Open));
      KeepAppend(init, last, StatusIs(InProgress));
      KeepAppend(init, last, StatusIs(Resolved));
    }
  }

  lemma CensusAppend(rows: seq<StatsRow>, row: StatsRow)
    ensures Census(rows + [row]) == Bump(Census(rows), row.status)
  {
    KeepAppend(rows, row, StatusIs(Open));
    KeepAppend(rows, row, StatusIs(InProgress));
    KeepAppend(rows, row, StatusIs(Resolved));
  }

  /** The sum of the puzzle totals of one game. */
  ghost function PuzzleTotals(puzzles: map<int, PuzzleStats>): nat
    decreases |puzzles.Keys|
  {
    if puzzles == map[] then 0
    else
      var p := Pick(puzzles.Keys);
      assert (puzzles - {p}).Keys == puzzles.Keys - {p};
      puzzles[p].counts.total + PuzzleTotals(puzzles - {p})
  }

  ghost function Pick(keys: set<int>): (p: int)
    requires keys != {}
    ensures p in keys
  {
    SomeKey(keys);
    var y :| y in keys;
    y
  }

  lemma SomeKey(keys: set<int>)
    requires keys != {}
    ensures exists y :: y in keys
  {
    var y := Element(keys);
  }

  /** The sum does not depend on which entry is taken first. */
  lemma {:induction false} PuzzleTotalsWithout(puzzles: map<int, PuzzleStats>, k: int)
    requires k in puzzles
    ensures PuzzleTotals(puzzles) == puzzles[k].counts.total + PuzzleTotals(puzzles - {k})
    decreases |puzzles.Keys|
  {
    var p := Pick(puzzles.Keys);
    if p != k {
      assert (puzzles - {p}).Keys == puzzles.Keys - {p};
      assert (puzzles - {k}).Keys == puzzles.Keys - {k};
      PuzzleTotalsWithout(puzzles - {p}, k);
      PuzzleTotalsWithout(puzzles - {k}, p);
      assert puzzles - {p} - {k} == puzzles - {k} - {p};
    }
  }

  /** Counting one more report for puzzle `p` raises the sum by one. */
  lemma PuzzleTotalsBump(puzzles: map<int, PuzzleStats>, p: int, entry: PuzzleStats)
    requires p in puzzles ==> entry.counts.total == puzzles[p].counts.total + 1
    requires p !in puzzles ==> entry.counts.total == 1
    ensures PuzzleTotals(puzzles[p := entry]) == PuzzleTotals(puzzles) + 1
  {
    var bumped := puzzles[p := entry];
    PuzzleTotalsWithout(bumped, p);
    assert bumped - {p} == puzzles - {p};
    if p in puzzles {
      PuzzleTotalsWithout(puzzles, p);
    } else {
      assert puzzles - {p} == puzzles;
    }
  }

  /** The entry of puzzle `p` describes the reports `rows` of its game: it
      exists exactly when one of them counts for `p`, and then carries the
      first such report's puzzle title and their counters. */
  ghost predicate PuzzleDescribed(game: GameStats, rows: seq<StatsRow>, p: int) {
    && (p in game.puzzles <==> OfPuzzle(rows, p) != [])
    && (p in game.puzzles ==>
          game.puzzles[p].title == OfPuzzle(rows, p)[0].puzzleTitle
          && game.puzzles[p].counts == Census(OfPuzzle(rows, p)))
  }

  /** One game's entry describes the reports `rows` of that game: its name is
      the first report's, its counters are theirs, every puzzle entry
      describes them, and the puzzle totals add up to the number of reports
      that count for a puzzle. */
  ghost predicate Describes(game: GameStats, rows: seq<StatsRow>) {
    && (rows != [] ==> game.gameName == rows[0].gameName)
    && game.counts == Census(rows)
    && PuzzleTotals(game.puzzles) == |Named(rows)|
    && (forall p :: PuzzleDescribed(game, rows, p))
  }

  lemma AddToPuzzle(game: GameStats, rows: seq<StatsRow>, row: StatsRow, p: int)
    requires PuzzleDescribed(game, rows, p)
    ensures PuzzleDescribed(AddToGame(game, row), rows + [row], p)
  {
    if NamesPuzzle(row) && p == row.puzzleId.value {
      AddToSamePuzzle(game, rows, row, p);
    } else {
      AddToOtherPuzzle(game, rows, row, p);
    }
  }

  lemma AddToSamePuzzle(game: GameStats, rows: seq<StatsRow>, row: StatsRow, p: int)
    requires PuzzleDescribed(game, rows, p)
    requires NamesPuzzle(row) && p == row.puzzleId.value
    ensures PuzzleDescribed(AddToGame(game, row), rows + [row], p)
  {
    KeepAppend(rows, row, PuzzleIs(p));
    CensusAppend(OfPuzzle(rows, p), row);
    if p !in game.puzzles {
      assert OfPuzzle(rows, p) == [];
      assert Census([]) == NoCounts;
    }
  }

  lemma AddToOtherPuzzle(game: GameStats, rows: seq<StatsRow>, row: StatsRow, p: int)
    requires PuzzleDescribed(game, rows, p)
    requires !(NamesPuzzle(row) && p == row.puzzleId.value)
    ensures PuzzleDescribed(AddToGame(game, row), rows + [row], p)
  {
    KeepAppend(rows, row, PuzzleIs(p));
    assert !PuzzleIs(p)(row);
    assert OfPuzzle(rows + [row], p) == OfPuzzle(rows, p);
    var after := AddToGame(game, row);
    assert p in after.puzzles <==> p in game.puzzles;
    if p in game.puzzles {
      assert after.puzzles[p] == game.puzzles[p];
    }
  }

  lemma AddToGameDescribes(game: GameStats, rows: seq<StatsRow>, row: StatsRow)
    requires Describes(game, rows)
    requires rows == [] ==> game.gameName == row.gameName
    ensures Describes(AddToGame(game, row), rows + [row])
  {
    var after := AddToGame(game, row);
    CensusAppend(rows, row);
    KeepAppend(rows, row, Naming);
    forall p
      ensures PuzzleDescribed(after, rows + [row], p)
    {
      AddToPuzzle(game, rows, row, p);
    }
    if NamesPuzzle(row) {
      var p := row.puzzleId.value;
      var entry := if p in game.puzzles then game.puzzles[p] else PuzzleStats(row.puzzleTitle, NoCounts);
      PuzzleTotalsBump(game.puzzles, p, entry.(counts := Bump(entry.counts, row.status)));
    }
  }

  /** The entry of game `g` exists exactly when one of `rows` is a report of
      `g`, and then describes those reports. */
  ghost predicate GameDescribed(stats: map<int, GameStats>, rows: seq<StatsRow>, g: int) {
    && (g in stats <==> OfGame(rows, g) != [])
    && (g in stats ==> Describes(stats[g], OfGame(rows, g)))
  }

  lemma StepGame(stats: map<int, GameStats>, rows: seq<StatsRow>, row: StatsRow, g: int)
    requires GameDescribed(stats, rows, g)
    ensures GameDescribed(Step(stats, row), rows + [row], g)
  {
    KeepAppend(rows, row, GameIs(g));
    if g == row.gameId {
      var game := if g in stats then stats[g] else GameStats(row.gameName, NoCounts, map[]);
      if g !in stats {
        assert OfGame(rows, g) == [];
        assert Describes(game, []) by {
          assert Census([]) == NoCounts;
          forall p ensures PuzzleDescribed(game, [], p) {
            assert OfPuzzle([], p) == [];
          }
        }
      }
      AddToGameDescribes(game, OfGame(rows, g), row);
    } else {
      assert !GameIs(g)(row);
      assert OfGame(rows + [row], g) == OfGame(rows, g);
    }
  }

  lemma {:induction false} TallySummarises(rows: seq<StatsRow>, g: int)
    ensures GameDescribed(Tally(rows), rows, g)
    decreases |rows|
  {
    if rows == [] {
      assert OfGame(rows, g) == [];
    } else {
      var init := rows[..|rows| - 1];
      var row := rows[|rows| - 1];
      assert rows == init + [row];
      TallySummarises(init, g);
      StepGame(Tally(init), init, row, g);
    }
  }

  /** The dictionary has an entry for a game exactly when one of the
      reports is of that game. */
  lemma StatsGames(rows: seq<StatsRow>, g: int)
    ensures g in Tally(rows) <==> exists i :: 0 <= i < |rows| && rows[i].gameId == g
  {
    TallySummarises(rows, g);
    if exists i :: 0 <= i < |rows| && rows[i].gameId == g {
      var i :| 0 <= i < |rows| && rows[i].gameId == g;
      KeepMembers(rows, GameIs(g), rows[i]);
    } else if g in Tally(rows) {
      var x := OfGame(rows, g)[0];
      KeepMembers(rows, GameIs(g), x);
      assert false;
    }
  }

  /** A game's total is its number of reports, its three status counters add
      up to that total, and so do, at most, its puzzle totals. */
  lemma StatsCounts(rows: seq<StatsRow>, g: int)
    requires g in Tally(rows)
    ensures Tally(rows)[g].counts == Census(OfGame(rows, g))
    ensures Tally(rows)[g].counts.total == |OfGame(rows, g)|
    ensures Tally(rows)[g].counts.open + Tally(rows)[g].counts.inProgress + Tally(rows)[g].counts.resolved
            == Tally(rows)[g].counts.total
    ensures PuzzleTotals(Tally(rows)[g].puzzles) <= Tally(rows)[g].counts.total
  {
    TallySummarises(rows, g);
    CensusPartition(OfGame(rows, g));
  }

  /** A game has an entry for a puzzle exactly when one of the game's reports
      counts for that puzzle, and a puzzle's total is at most its game's. */
  lemma StatsPuzzles(rows: seq<StatsRow>, g: int, p: int)
    requires g in Tally(rows)
    ensures p in Tally(rows)[g].puzzles <==>
              exists i :: 0 <= i < |rows| && rows[i].gameId == g && NamesPuzzle(rows[i]) && rows[i].puzzleId.value == p
    ensures p in Tally(rows)[g].puzzles ==>
              Tally(rows)[g].puzzles[p].counts.total <= Tally(rows)[g].counts.total
  {
    TallySummarises(rows, g);
    var game := Tally(rows)[g];
    var mine := OfGame(rows, g);
    assert PuzzleDescribed(game, mine, p);
    if exists i :: 0 <= i < |rows| && rows[i].gameId == g && NamesPuzzle(rows[i]) && rows[i].puzzleId.value == p {
      var i :| 0 <= i < |rows| && rows[i].gameId == g && NamesPuzzle(rows[i]) && rows[i].puzzleId.value == p;
      KeepMembers(rows, GameIs(g), rows[i]);
      KeepMembers(mine, PuzzleIs(p), rows[i]);
    } else if p in game.puzzles {
      var x := OfPuzzle(mine, p)[0];
      KeepMembers(mine, PuzzleIs(p), x);
      KeepMembers(rows, GameIs(g), x);
      assert false;
    }
  }

  // ---------------------------------------------------------------------
  // The route

  /** What the handler reads of report `q`: its game's name and, when the
      report counts for a puzzle, that puzzle's title. */
  function RowOf(s: DbState, q: int): StatsRow
    requires q in s.reports && ReportsLinked(s.reports, s.games, s.puzzles)
  {
    var report := s.reports[q];
    StatsRow(report.gameId, s.games[report.gameId].name, report.status, report.puzzleId,
             if report.puzzleId.Some? then s.puzzles[report.puzzleId.value].title else "")
  }

  /** The reports the route counts: in the scope and dated at or after
      `since`. */
  function Selected(s: DbState, scope: ReportRoutes.Scope, since: int): set<int> {
    set q | q in s.reports && ReportRoutes.InScope(s, q, scope) && s.reports[q].reportDate >= since
  }

  /** The order `findMany` returns them in; it names no `orderBy`, and the
      model fixes ascending id. */
  function InIdOrder(ids: set<int>): (r: seq<int>)
    ensures |r| == |ids|
    ensures forall q :: q in r <==> q in ids
    ensures forall a, b :: 0 <= a < b < |r| ==> r[a] != r[b]
  {
    SortedBy(ids, map q | q in ids :: 0)
  }

  function StatsRows(s: DbState, ids: seq<int>): seq<StatsRow>
    requires ReportsLinked(s.reports, s.games, s.puzzles)
    requires forall q :: q in ids ==> q in s.reports
  {
    seq(|ids|, k requires 0 <= k < |ids| => RowOf(s, ids[k]))
  }

  /** `GET /reports/stats`: scoped like the report list, to the workspace
      named in the query or else the caller's current one; a workspace id
      that is not a number fails in the store. */
  function ReportStats(s: DbState, workspaceQuery: Option<string>, current: Option<JsNum>, since: int)
    : (r: Result<map<int, GameStats>>)
    requires ReportsLinked(s.reports, s.games, s.puzzles)
    ensures r.Err? <==> RequestedWorkspace(workspaceQuery, current) == Some(NaN)
    ensures r.Err? ==> r.error == Internal
  {
    match ReportRoutes.WorkspaceScope(workspaceQuery, current)
    case Err(e) => Err(e)
    case Ok(scope) => Ok(Tally(StatsRows(s, InIdOrder(Selected(s, scope, since)))))
  }

  method HandleReportStats(db: Store.Db, workspaceQuery: Option<string>, current: Option<JsNum>, since: int)
    returns (r: Result<map<int, GameStats>>)
    requires ReportsLinked(db.tables.reports, db.tables.games, db.tables.puzzles)
    ensures r == ReportStats(db.tables, workspaceQuery, current, since)
  {
    var scope := ReportRoutes.WorkspaceScope(workspaceQuery, current);
    if scope.Err? {
      return Err(scope.error);
    }
    var ids := InIdOrder(Selected(db.tables, scope.value, since));
    var stats := ComputeStats(StatsRows(db.tables, ids));
    r := Ok(stats);
  }

  /** The rows the route counts for a scope. */
  function SelectedRows(s: DbState, scope: ReportRoutes.Scope, since: int): seq<StatsRow>
    requires ReportsLinked(s.reports, s.games, s.puzzles)
  {
    StatsRows(s, InIdOrder(Selected(s, scope, since)))
  }

  /** Every game counted has a selected report, so it is in the workspace
      when the scope is one. */
  lemma GamesSelected(s: DbState, scope: ReportRoutes.Scope, since: int, g: int)
    requires ReportsLinked(s.reports, s.games, s.puzzles)
    requires g in Tally(SelectedRows(s, scope, since))
    ensures exists q :: q in Selected(s, scope, since) && s.reports[q].gameId == g
    ensures g in s.games
    ensures scope.InWorkspace? ==> s.games[g].workspaceId == scope.w
  {
    var ids := InIdOrder(Selected(s, scope, since));
    var rows := SelectedRows(s, scope, since);
    StatsGames(rows, g);
    var i :| 0 <= i < |rows| && rows[i].gameId == g;
    assert rows[i] == RowOf(s, ids[i]);
    assert ids[i] in Selected(s, scope, since);
  }

  /** Every puzzle entry of a game is a puzzle of that game. */
  lemma PuzzlesOfGame(s: DbState, scope: ReportRoutes.Scope, since: int, g: int, p: int)
    requires ReportsLinked(s.reports, s.games, s.puzzles)
    requires g in Tally(SelectedRows(s, scope, since))
    requires p in Tally(SelectedRows(s, scope, since))[g].puzzles
    ensures p in s.puzzles && s.puzzles[p].gameId == g
  {
    var ids := InIdOrder(Selected(s, scope, since));
    var rows := SelectedRows(s, scope, since);
    StatsPuzzles(rows, g, p);
    var k :| 0 <= k < |rows| && rows[k].gameId == g && NamesPuzzle(rows[k]) && rows[k].puzzleId.value == p;
    assert rows[k] == RowOf(s, ids[k]);
    assert ids[k] in s.reports && s.reports[ids[k]].puzzleId == Some(p);
  }

  /** A workspace id given in the query is the scope, whoever asks. */
  lemma StatsOfQueriedWorkspace(s: DbState, w: int, current: Option<JsNum>, since: int)
    requires ReportsLinked(s.reports, s.games, s.puzzles)
    ensures ReportStats(s, Some(IntToString(w)), current, since) ==
              Ok(Tally(SelectedRows(s, ReportRoutes.InWorkspace(w), since)))
  {
    NumberOfIntToString(w);
    assert RequestedWorkspace(Some(IntToString(w)), current) == Some(Num(w));
  }

  /** With a workspace id in the query, every game in the statistics is a
      game of that workspace and every puzzle entry is a puzzle of its
      game, whichever workspace the caller belongs to. */
  lemma StatsStayInWorkspace(s: DbState, w: int, current: Option<JsNum>, since: int, g: int, p: int)
    requires ReportsLinked(s.reports, s.games, s.puzzles)
    ensures ReportStats(s, Some(IntToString(w)), current, since).Ok?
    ensures g in ReportStats(s, Some(IntToString(w)), current, since).value ==>
              g in s.games && s.games[g].workspaceId == w
    ensures g in ReportStats(s, Some(IntToString(w)), current, since).value &&
            p in ReportStats(s, Some(IntToString(w)), current, since).value[g].puzzles ==>
              p in s.puzzles && s.puzzles[p].gameId == g
  {
    StatsOfQueriedWorkspace(s, w, current, since);
    var stats := Tally(SelectedRows(s, ReportRoutes.InWorkspace(w), since));
    if g in stats {
      GamesSelected(s, ReportRoutes.InWorkspace(w), since, g);
      if p in stats[g].puzzles {
        PuzzlesOfGame(s, ReportRoutes.InWorkspace(w), since, g, p);
      }
    }
  }

  function Members(ids: seq<int>): set<int> {
    set q | q in ids
  }

  /** The reports of game `g` among `ids`. */
  function CountedOfGame(s: DbState, ids: set<int>, g: int): set<int> {
    set q | q in ids && q in s.reports && s.reports[q].gameId == g
  }

  lemma StatsRowsAppend(s: DbState, ids: seq<int>, last: int)
    requires ReportsLinked(s.reports, s.games, s.puzzles)
    requires forall q :: q in ids + [last] ==> q in s.reports
    ensures StatsRows(s, ids + [last]) == StatsRows(s, ids) + [RowOf(s, last)]
  {
  }

  lemma CountedOfGameAppend(s: DbState, ids: seq<int>, last: int, g: int)
    requires last in s.reports && last !in ids
    ensures |CountedOfGame(s, Members(ids + [last]), g)| ==
            |CountedOfGame(s, Members(ids), g)| + (if s.reports[last].gameId == g then 1 else 0)
  {
    var before := CountedOfGame(s, Members(ids), g);
    if s.reports[last].gameId == g {
      assert CountedOfGame(s, Members(ids + [last]), g) == before + {last};
    } else {
      assert CountedOfGame(s, Members(ids + [last]), g) == before;
    }
  }

  /** Counting the rows of a game in a listing without repeats counts the
      game's reports among them. */
  lemma {:induction false} CountOfGame(s: DbState, ids: seq<int>, g: int)
    requires ReportsLinked(s.reports, s.games, s.puzzles)
    requires forall q :: q in ids ==> q in s.reports
    requires forall a, b :: 0 <= a < b < |ids| ==> ids[a] != ids[b]
    ensures |OfGame(StatsRows(s, ids), g)| == |CountedOfGame(s, Members(ids), g)|
    decreases |ids|
  {
    if ids == [] {
      assert CountedOfGame(s, Members(ids), g) == {};
    } else {
      var init := ids[..|ids| - 1];
      var last := ids[|ids| - 1];
      assert ids == init + [last];
      CountOfGame(s, init, g);
      StatsRowsAppend(s, init, last);
      KeepAppend(StatsRows(s, init), RowOf(s, last), GameIs(g));
      assert forall a :: 0 <= a < |init| ==> init[a] == ids[a] != ids[|ids| - 1];
      CountedOfGameAppend(s, init, last, g);
    }
  }

  /** Each game's total is the number of its reports the route selected. */
  lemma StatsTotals(s: DbState, workspaceQuery: Option<string>, current: Option<JsNum>, since: int, g: int)
    requires ReportsLinked(s.reports, s.games, s.puzzles)
    requires ReportRoutes.WorkspaceScope(workspaceQuery, current).Ok?
    ensures ReportStats(s, workspaceQuery, current, since).Ok?
    ensures g in ReportStats(s, workspaceQuery, current, since).value ==>
              ReportStats(s, workspaceQuery, current, since).value[g].counts.total ==
              |CountedOfGame(s, Selected(s, ReportRoutes.WorkspaceScope(workspaceQuery, current).value, since), g)|
  {
    var selected := Selected(s, ReportRoutes.WorkspaceScope(workspaceQuery, current).value, since);
    var ids := InIdOrder(selected);
    var rows := StatsRows(s, ids);
    if g in Tally(rows) {
      StatsCounts(rows, g);
      CountOfGame(s, ids, g);
      assert Members(ids) == selected;
    }
  }
}
