/** The report routes. The listing routes and `GET /reports/:id` need a
    logged-in caller but never consult a membership: a workspace id named
    in the query or the header scopes the list, whoever asks. Creating,
    changing and deleting a report is open to any client. Timestamps are
    integers; the clock reading a route takes is the parameter `now`. */
module ReportRoutes {
  import opened Outcomes
  import opened Js
  import opened Schema
  import opened Ordering
  import Store

  // ---------------------------------------------------------------------
  // Status names

  function StatusName(st: ReportStatus): string {
    match st
    case Open => "open"
    case InProgress => "in-progress"
    case Resolved => "resolved"
  }

  /** The status filter the list routes accept; any other string, or none,
      applies no status filter. */
  function ParseStatus(text: string): (r: Option<ReportStatus>)
    ensures r.Some? <==> text == "open" || text == "in-progress" || text == "resolved"
    ensures r.Some? ==> StatusName(r.value) == text
  {
    if text == "open" then Some(Open)
    else if text == "in-progress" then Some(InProgress)
    else if text == "resolved" then Some(Resolved)
    else None
  }

  lemma StatusNameRoundTrip(st: ReportStatus)
    ensures ParseStatus(StatusName(st)) == Some(st)
  {
  }

  // ---------------------------------------------------------------------
  // Listing

  /** The base filter of a listing route. */
  datatype Scope = AllReports | InWorkspace(w: int) | OfGame(g: int) | OfPuzzle(p: int)

  /** `GET /reports` scopes to `req.query.workspaceId || currentWorkspaceId`
      when there is one, to every report otherwise. */
  function WorkspaceScope(query: Option<string>, current: Option<JsNum>): (r: Result<Scope>)
    ensures RequestedWorkspace(query, current).None? ==> r == Ok(AllReports)
    ensures RequestedWorkspace(query, current) == Some(NaN) ==> r == Err(Internal)
    ensures forall w :: RequestedWorkspace(query, current) == Some(Num(w)) ==> r == Ok(InWorkspace(w))
  {
    match RequestedWorkspace(query, current)
    case None => Ok(AllReports)
    case Some(NaN) => Err(Internal)
    case Some(Num(w)) => Ok(InWorkspace(w))
  }

  predicate InScope(s: DbState, q: int, scope: Scope)
    requires q in s.reports
  {
    match scope
    case AllReports => true
    case InWorkspace(w) => s.reports[q].gameId in s.games && s.games[s.reports[q].gameId].workspaceId == w
    case OfGame(g) => s.reports[q].gameId == g
    case OfPuzzle(p) => s.reports[q].puzzleId == Some(p)
  }

  /** The query string of a listing route. `page` and `limit` go through
      `parseInt` and default to 1 and 10; `sortOrder` defaults to `desc`. */
  datatype ListQuery = ListQuery(
    status: Option<string>, search: Option<string>, sortOrder: Option<string>,
    page: Option<string>, limit: Option<string>)

  /** A report passes the filters of a listing: in scope, of the requested
      status when the query names one of the three statuses, and containing
      the search text in its title or description when there is one.
      `contains` stands for the store's case-insensitive substring test. */
  predicate Matches(s: DbState, q: int, scope: Scope, status: Option<string>, search: Option<string>,
                    contains: (string, string) -> bool)
    requires q in s.reports
  {
    && InScope(s, q, scope)
    && (status.Some? && ParseStatus(status.value).Some? ==> s.reports[q].status == ParseStatus(status.value).value)
    && (Present(search) ==> contains(s.reports[q].title, search.value) || contains(s.reports[q].description, search.value))
  }

  function Matching(s: DbState, scope: Scope, status: Option<string>, search: Option<string>,
                    contains: (string, string) -> bool): (r: set<int>)
    ensures forall q :: q in r <==> q in s.reports && Matches(s, q, scope, status, search, contains)
  {
    set q | q in s.reports && Matches(s, q, scope, status, search, contains)
  }

  /** `parseInt` of a query parameter, or its default when absent. */
  function QueryNumber(text: Option<string>, default: int): JsNum {
    if text.None? then Num(default) else ParseIntAutoRadix(text.value)
  }

  /** The rank `orderBy: { reportDate }` sorts on: the date, negated for a
      newest-first listing. */
  function DateRank(s: DbState, ids: set<int>, descending: bool): (rank: map<int, int>)
    requires ids <= s.reports.Keys
    ensures rank.Keys == ids
    ensures forall q :: q in ids ==> rank[q] == (if descending then -s.reports[q].reportDate else s.reports[q].reportDate)
  {
    map q | q in ids :: if descending then -s.reports[q].reportDate else s.reports[q].reportDate
  }

  /** Report `a` may be listed before report `b`: newest first when
      `descending`, oldest first otherwise. */
  predicate DateBefore(s: DbState, a: int, b: int, descending: bool) {
    && a in s.reports && b in s.reports
    && (if descending then s.reports[a].reportDate >= s.reports[b].reportDate
        else s.reports[a].reportDate <= s.reports[b].reportDate)
  }

  ghost predicate InDateOrder(s: DbState, ids: seq<int>, descending: bool) {
    forall i, j :: 0 <= i < j < |ids| ==> DateBefore(s, ids[i], ids[j], descending)
  }

  /** Every matching report, once each, in the order of the requested sort. */
  function Listing(s: DbState, scope: Scope, status: Option<string>, search: Option<string>, descending: bool,
                   contains: (string, string) -> bool): (r: seq<int>)
    ensures |r| == |Matching(s, scope, status, search, contains)|
    ensures forall q :: q in r <==> q in Matching(s, scope, status, search, contains)
    ensures forall i, j :: 0 <= i < j < |r| ==> r[i] != r[j]
    ensures InDateOrder(s, r, descending)
  {
    var matching := Matching(s, scope, status, search, contains);
    var rank := DateRank(s, matching, descending);
    var r := SortedBy(matching, rank);
    RankedInDateOrder(s, matching, descending, r);
    r
  }

  /** Sorting on the date rank lists the reports in date order. */
  lemma RankedInDateOrder(s: DbState, ids: set<int>, descending: bool, r: seq<int>)
    requires ids <= s.reports.Keys
    requires forall i, j :: 0 <= i < j < |r| ==> Before(DateRank(s, ids, descending), r[i], r[j])
    ensures InDateOrder(s, r, descending)
  {
    var rank := DateRank(s, ids, descending);
    forall i, j | 0 <= i < j < |r|
      ensures DateBefore(s, r[i], r[j], descending)
    {
      assert Before(rank, r[i], r[j]);
    }
  }

  /** The answer of a listing route: one page of report ids, the number of
      reports matching, and the paging figures. `totalPages` is absent when
      the limit is zero, where `Math.ceil(total / 0)` is no number. */
  datatype ReportPage = ReportPage(ids: seq<int>, total: nat, page: int, limit: int, totalPages: Option<nat>)

  /** `skip = (parseInt(page) - 1) * parseInt(limit)`. */
  function Skip(page: int, limit: int): (k: int)
    ensures page >= 1 && limit >= 0 ==> k >= 0
  {
    if page >= 1 && limit >= 0 then MulLe(0, page - 1, limit); (page - 1) * limit
    else (page - 1) * limit
  }

  /** Paging the store accepts: both numbers parse, the skip
      `(page - 1) * limit` and the limit are not negative, and the sort order
      is `asc` or `desc`. */
  predicate PagingValid(query: ListQuery) {
    var page := QueryNumber(query.page, 1);
    var limit := QueryNumber(query.limit, 10);
    && page.Num? && limit.Num?
    && Skip(page.value, limit.value) >= 0 && limit.value >= 0
    && (query.sortOrder.None? || query.sortOrder == Some("asc") || query.sortOrder == Some("desc"))
  }

  /** A listing route once its base filter is known: the matching reports in
      date order, the first `(page - 1) * limit` of them skipped and at most
      `limit` of them answered, with `total` and `totalPages` counting all
      matches. Paging the store refuses is a 500. */
  function ListReports(s: DbState, scope: Scope, query: ListQuery, contains: (string, string) -> bool): (r: Result<ReportPage>)
    ensures r.Ok? <==> PagingValid(query)
    ensures r.Err? ==> r.error == Internal
    ensures r.Ok? ==>
      var matching := Matching(s, scope, query.status, query.search, contains);
      var page := QueryNumber(query.page, 1).value;
      var limit := QueryNumber(query.limit, 10).value;
      && r.value.total == |matching|
      && r.value.page == page
      && r.value.limit == limit
      && r.value.ids == Slice(Listing(s, scope, query.status, query.search, query.sortOrder != Some("asc"), contains), Skip(page, limit), limit)
      && (limit > 0 ==> r.value.totalPages == Some(CeilDiv(|matching|, limit)))
      && (limit == 0 ==> r.value.ids == [] && r.value.totalPages.None?)
    ensures r.Ok? ==> r.value == Paged(s, scope, query, contains, QueryNumber(query.page, 1).value, QueryNumber(query.limit, 10).value)
  {
    if !PagingValid(query) then Err(Internal)
    else Ok(Paged(s, scope, query, contains, QueryNumber(query.page, 1).value, QueryNumber(query.limit, 10).value))
  }

  /** The page answered for page number `page` and limit `limit`. */
  function Paged(s: DbState, scope: Scope, query: ListQuery, contains: (string, string) -> bool, page: int, limit: int): ReportPage
    requires limit >= 0 && Skip(page, limit) >= 0
  {
    var matching := Matching(s, scope, query.status, query.search, contains);
    var listing := Listing(s, scope, query.status, query.search, query.sortOrder != Some("asc"), contains);
    var ids := Slice(listing, Skip(page, limit), limit);
    ReportPage(ids, |matching|, page, limit, if limit > 0 then Some(CeilDiv(|matching|, limit)) else None)
  }

  /** A page holds at most `limit` reports, each matching the filters, none
      twice, in the requested date order. */
  lemma ListedPage(s: DbState, scope: Scope, query: ListQuery, contains: (string, string) -> bool)
    requires PagingValid(query)
    ensures
      var ids := ListReports(s, scope, query, contains).value.ids;
      && |ids| <= QueryNumber(query.limit, 10).value
      && (forall q :: q in ids ==> q in Matching(s, scope, query.status, query.search, contains))
      && (forall i, j :: 0 <= i < j < |ids| ==> ids[i] != ids[j])
      && InDateOrder(s, ids, query.sortOrder != Some("asc"))
  {
    var page := QueryNumber(query.page, 1).value;
    var limit := QueryNumber(query.limit, 10).value;
    var descending := query.sortOrder != Some("asc");
    var listing := Listing(s, scope, query.status, query.search, descending, contains);
    var skip := Skip(page, limit);
    SliceInDateOrder(s, listing, skip, limit, descending);
    SliceOfDistinct(listing, skip, limit);
  }

  lemma SliceInDateOrder(s: DbState, rows: seq<int>, skip: nat, take: nat, descending: bool)
    requires InDateOrder(s, rows, descending)
    ensures InDateOrder(s, Slice(rows, skip, take), descending)
  {
    var r := Slice(rows, skip, take);
    forall i, j | 0 <= i < j < |r|
      ensures DateBefore(s, r[i], r[j], descending)
    {
      assert r[i] == rows[skip + i] && r[j] == rows[skip + j];
      assert 0 <= skip + i < skip + j < |rows|;
    }
    assert InDateOrder(s, r, descending);
  }

  /** `GET /reports`: scoped to the workspace the query or the header names,
      or to every report when neither does. */
  function ListAllReports(s: DbState, workspaceId: Option<string>, current: Option<JsNum>, query: ListQuery,
                          contains: (string, string) -> bool): (r: Result<ReportPage>)
    ensures RequestedWorkspace(workspaceId, current) == Some(NaN) ==> r == Err(Internal)
    ensures RequestedWorkspace(workspaceId, current).None? ==> r == ListReports(s, AllReports, query, contains)
    ensures forall w :: RequestedWorkspace(workspaceId, current) == Some(Num(w)) ==> r == ListReports(s, InWorkspace(w), query, contains)
  {
    match WorkspaceScope(workspaceId, current)
    case Err(e) => Err(e)
    case Ok(scope) => ListReports(s, scope, query, contains)
  }

  /** Naming workspace `w` in the query lists reports of `w`'s games, and
      nothing about the caller enters into it: whoever asks gets the same
      page. */
  lemma {:induction false} ListAllReportsByQuery(s: DbState, w: int, current: Option<JsNum>, query: ListQuery,
                                                 contains: (string, string) -> bool)
    requires PagingValid(query)
    ensures ListAllReports(s, Some(IntToString(w)), current, query, contains).Ok?
    ensures forall q :: q in ListAllReports(s, Some(IntToString(w)), current, query, contains).value.ids ==>
      q in s.reports && s.reports[q].gameId in s.games && s.games[s.reports[q].gameId].workspaceId == w
    ensures ListAllReports(s, Some(IntToString(w)), current, query, contains).value.total ==
      |Matching(s, InWorkspace(w), query.status, query.search, contains)|
  {
    NumberOfIntToString(w);
    assert RequestedWorkspace(Some(IntToString(w)), current) == Some(Num(w));
    assert ListAllReports(s, Some(IntToString(w)), current, query, contains) == ListReports(s, InWorkspace(w), query, contains);
    ListedPage(s, InWorkspace(w), query, contains);
  }

  /** The page a matching report is listed on, pages numbered from 1. */
  ghost function PageOf(s: DbState, scope: Scope, query: ListQuery, contains: (string, string) -> bool, limit: int, q: int): int
    requires limit > 0
    requires q in Matching(s, scope, query.status, query.search, contains)
  {
    IndexOf(Listing(s, scope, query.status, query.search, query.sortOrder != Some("asc"), contains), q) / limit + 1
  }

  /** Every matching report's page is within `totalPages`. */
  lemma PageWithinTotal(s: DbState, scope: Scope, query: ListQuery, contains: (string, string) -> bool, limit: int, q: int)
    requires limit > 0
    requires q in Matching(s, scope, query.status, query.search, contains)
    ensures 1 <= PageOf(s, scope, query, contains, limit, q)
              <= CeilDiv(|Matching(s, scope, query.status, query.search, contains)|, limit)
  {
    var listing := Listing(s, scope, query.status, query.search, query.sortOrder != Some("asc"), contains);
    var i := IndexOf(listing, q);
    DivNonNegative(i, limit);
    PagesPartition(listing, limit, i, 1);
  }

  /** With a positive limit, every matching report is listed on the page
      `PageOf` names and on no other; `PageOf` does not depend on the page
      asked for. */
  lemma {:induction false} EveryMatchOnOnePage(s: DbState, scope: Scope, query: ListQuery,
                                               contains: (string, string) -> bool, page: int, limit: int, q: int)
    requires limit > 0 && page >= 1
    requires q in Matching(s, scope, query.status, query.search, contains)
    ensures q in Paged(s, scope, query, contains, page, limit).ids <==> page == PageOf(s, scope, query, contains, limit, q)
  {
    var listing := Listing(s, scope, query.status, query.search, query.sortOrder != Some("asc"), contains);
    PageMembership(listing, Paged(s, scope, query, contains, page, limit).ids, limit, page, q);
  }

  /** A report of a listing without repeats is on a page of it exactly when
      the page is the one its position falls on. */
  lemma PageMembership(listing: seq<int>, ids: seq<int>, limit: int, page: int, q: int)
    requires limit > 0 && page >= 1 && q in listing
    requires ids == Slice(listing, Skip(page, limit), limit)
    requires forall a, b :: 0 <= a < b < |listing| ==> listing[a] != listing[b]
    ensures q in ids <==> page == IndexOf(listing, q) / limit + 1
  {
    PagesPartition(listing, limit, IndexOf(listing, q), page);
  }

  // ---------------------------------------------------------------------
  // One report

  /** Images of report `q`. */
  function ImagesOf(images: map<int, ReportImage>, q: int): (r: map<int, ReportImage>)
    ensures forall i :: i in r <==> i in images && images[i].reportId == q
    ensures forall i :: i in r ==> r[i] == images[i]
  {
    map i | i in images && images[i].reportId == q :: images[i]
  }

  /** The body of `GET /reports/:id`: the report, its game's name, its
      puzzle's title when it names one, and its images. */
  datatype ReportDetail = ReportDetail(report: Report, gameName: string, puzzleTitle: Option<string>,
                                       images: map<int, ReportImage>)

  /** `GET /reports/:id`: 404 for an unknown id; neither the caller nor a
      workspace is consulted. */
  function GetReport(s: DbState, id: int): (r: Result<ReportDetail>)
    requires ReportsLinked(s.reports, s.games, s.puzzles)
    ensures r.Ok? <==> id in s.reports
    ensures r.Err? ==> r == Err(NotFound("Report not found"))
    ensures r.Ok? ==>
      && r.value.report == s.reports[id]
      && r.value.gameName == s.games[s.reports[id].gameId].name
      && (r.value.puzzleTitle.Some? <==> s.reports[id].puzzleId.Some?)
      && (r.value.puzzleTitle.Some? ==> r.value.puzzleTitle.value == s.puzzles[s.reports[id].puzzleId.value].title)
      && (forall i :: i in r.value.images <==> i in s.reportImages && s.reportImages[i].reportId == id)
  {
    if id !in s.reports then Err(NotFound("Report not found"))
    else
      var report := s.reports[id];
      var title := if report.puzzleId.Some? then Some(s.puzzles[report.puzzleId.value].title) else None;
      Ok(ReportDetail(report, s.games[report.gameId].name, title, ImagesOf(s.reportImages, id)))
  }

  /** `imageUrls.map(imageUrl => ({ imageUrl, reportId }))` stored with
      consecutive ids from `base`, in list order. */
  function ImagesFor(base: int, q: int, urls: seq<string>): (r: map<int, ReportImage>)
    ensures forall i :: i in r ==> base <= i < base + |urls| && r[i].reportId == q
    decreases |urls|
  {
    if urls == [] then map[]
    else ImagesFor(base, q, urls[..|urls| - 1])[base + |urls| - 1 := ReportImage(urls[|urls| - 1], q)]
  }

  /** The `k`-th URL is stored under id `base + k`, for report `q`. */
  lemma {:induction false} ImagesForAt(base: int, q: int, urls: seq<string>, k: int)
    requires 0 <= k < |urls|
    ensures base + k in ImagesFor(base, q, urls) && ImagesFor(base, q, urls)[base + k] == ReportImage(urls[k], q)
    decreases |urls|
  {
    if k < |urls| - 1 {
      ImagesForAt(base, q, urls[..|urls| - 1], k);
    }
  }

  /** Every URL is stored, in list order, under consecutive ids from `base`. */
  lemma ImagesForAll(base: int, q: int, urls: seq<string>)
    ensures forall i :: base <= i < base + |urls| ==> i in ImagesFor(base, q, urls) && ImagesFor(base, q, urls)[i] == ReportImage(urls[i - base], q)
  {
    forall i | base <= i < base + |urls|
      ensures i in ImagesFor(base, q, urls) && ImagesFor(base, q, urls)[i] == ReportImage(urls[i - base], q)
    {
      ImagesForAt(base, q, urls, i - base);
    }
  }

  /** `createMany` of one image per URL for report `q`. */
  function WithImages(s: DbState, q: int, urls: seq<string>): DbState {
    s.(reportImages := s.reportImages + ImagesFor(s.nextId, q, urls), nextId := s.nextId + |urls|)
  }

  /** `deleteMany` of every image of report `q`. */
  function WithoutImages(s: DbState, q: int): DbState {
    s.(reportImages := map i | i in s.reportImages && s.reportImages[i].reportId != q :: s.reportImages[i])
  }

  /** Images stored under ids no image has yet join the report's images. */
  lemma ImagesOfUnion(images: map<int, ReportImage>, base: int, q: int, urls: seq<string>)
    requires forall i :: i in images ==> i < base
    ensures ImagesOf(images + ImagesFor(base, q, urls), q) == ImagesOf(images, q) + ImagesFor(base, q, urls)
  {
    var added := ImagesFor(base, q, urls);
    var l := ImagesOf(images + added, q);
    var r := ImagesOf(images, q) + added;
    forall i | i in l ensures i in r && l[i] == r[i] {
    }
    forall i | i in r ensures i in l {
    }
    assert l.Keys == r.Keys;
  }

  /** Storing the images of an existing report keeps the store consistent
      and adds exactly those images to the report. */
  lemma {:induction false} WithImagesConsistent(s: DbState, q: int, urls: seq<string>, t: DbState)
    requires Consistent(s) && q in s.reports
    requires t == WithImages(s, q, urls)
    ensures Consistent(t)
    ensures ImagesOf(t.reportImages, q) == ImagesOf(s.reportImages, q) + ImagesFor(s.nextId, q, urls)
  {
    IdsFreshRaised(s, t.nextId);
    assert IdsBelow(t.reportImages.Keys, t.nextId);
    assert IdsFresh(t);
    assert ReportImagesLinked(t.reportImages, t.reports);
    assert Linked(t);
    ImagesOfUnion(s.reportImages, s.nextId, q, urls);
  }

  lemma WithoutImagesConsistent(s: DbState, q: int)
    requires Consistent(s)
    ensures Consistent(WithoutImages(s, q))
    ensures ImagesOf(WithoutImages(s, q).reportImages, q) == map[]
    ensures WithoutImages(s, q).nextId == s.nextId && WithoutImages(s, q).reports == s.reports
  {
    var t := WithoutImages(s, q);
    SubMapIdsBelow(t.reportImages, s.reportImages, s.nextId);
    assert IdsFresh(t);
    assert Linked(t);
  }

  // ---------------------------------------------------------------------
  // Writing

  /** The body of `POST /reports`. */
  datatype NewReport = NewReport(
    title: Option<string>, description: Option<string>, gameId: Field<int>, puzzleId: Field<int>,
    reportDate: Field<int>, imageUrls: Field<seq<string>>, priority: Field<Priority>)

  /** The checks of `POST /reports`: title and description non-empty, an
      integer game id, and the optional fields of their kind when given. */
  predicate NewReportValid(body: NewReport) {
    && Present(body.title) && Present(body.description) && body.gameId.Given?
    && !body.puzzleId.Malformed? && !body.reportDate.Malformed? && !body.imageUrls.Malformed?
    && !body.priority.Malformed?
  }

  /** `if (puzzleId)`: a puzzle id of 0 counts as none. */
  predicate NamesPuzzle(body: NewReport) {
    body.puzzleId.Given? && body.puzzleId.value != 0
  }

  /** The row `prisma.report.create` writes. */
  function Created(body: NewReport, now: int): (r: Report)
    requires NewReportValid(body)
    ensures r.title == body.title.value && r.description == body.description.value
    ensures r.gameId == body.gameId.value
    ensures r.puzzleId.Some? <==> NamesPuzzle(body)
    ensures r.puzzleId.Some? ==> r.puzzleId.value == body.puzzleId.value
    ensures r.reportDate == (if body.reportDate.Given? then body.reportDate.value else now)
    ensures r.priority == (if body.priority.Given? then body.priority.value else High)
    ensures r.status == Open && r.resolvedAt.None? && r.resolution.None?
  {
    Report(body.title.value, body.description.value,
           if body.reportDate.Given? then body.reportDate.value else now,
           Open,
           if body.priority.Given? then body.priority.value else High,
           None, None, body.gameId.value,
           if NamesPuzzle(body) then Some(body.puzzleId.value) else None)
  }

  function UrlsOf(f: Field<seq<string>>): seq<string> {
    if f.Given? then f.value else []
  }

  /** `POST /reports`: 400 for a malformed body, 404 for an unknown game or
      a named puzzle that does not exist, 400 for a puzzle of another game;
      otherwise the report is stored under the next id, open, with one image
      per URL under the ids after it. */
  function CreateReport(s: DbState, body: NewReport, now: int): (out: Outcome<int>)
    ensures out.result.Err? ==> out.state == s
    ensures !NewReportValid(body) ==> out.result == Err(Invalid)
    ensures NewReportValid(body) && body.gameId.value !in s.games ==> out.result == Err(NotFound("Game not found"))
    ensures NewReportValid(body) && body.gameId.value in s.games && NamesPuzzle(body) ==>
      && (body.puzzleId.value !in s.puzzles ==> out.result == Err(NotFound("Puzzle not found")))
      && (body.puzzleId.value in s.puzzles && s.puzzles[body.puzzleId.value].gameId != body.gameId.value ==>
            out.result == Err(BadRequest("Puzzle does not belong to the specified game")))
    ensures out.result.Ok? <==>
      && NewReportValid(body) && body.gameId.value in s.games
      && (NamesPuzzle(body) ==> body.puzzleId.value in s.puzzles && s.puzzles[body.puzzleId.value].gameId == body.gameId.value)
    ensures out.result.Ok? ==>
      && out.result.value == s.nextId
      && out.state == WithImages(s.(reports := s.reports[s.nextId := Created(body, now)], nextId := s.nextId + 1),
                                 s.nextId, UrlsOf(body.imageUrls))
  {
    if !NewReportValid(body) then Outcome(Err(Invalid), s)
    else if body.gameId.value !in s.games then Outcome(Err(NotFound("Game not found")), s)
    else if NamesPuzzle(body) && body.puzzleId.value !in s.puzzles then Outcome(Err(NotFound("Puzzle not found")), s)
    else if NamesPuzzle(body) && s.puzzles[body.puzzleId.value].gameId != body.gameId.value then
      Outcome(Err(BadRequest("Puzzle does not belong to the specified game")), s)
    else
      var stored := s.(reports := s.reports[s.nextId := Created(body, now)], nextId := s.nextId + 1);
      Outcome(Ok(s.nextId), WithImages(stored, s.nextId, UrlsOf(body.imageUrls)))
  }

  method HandleCreateReport(db: Store.Db, body: NewReport, now: int) returns (r: Result<int>)
    modifies db
    ensures Outcome(r, db.tables) == CreateReport(old(db.tables), body, now)
  {
    if !NewReportValid(body) {
      return Err(Invalid);
    }
    if body.gameId.value !in db.tables.games {
      return Err(NotFound("Game not found"));
    }
    if NamesPuzzle(body) {
      if body.puzzleId.value !in db.tables.puzzles {
        return Err(NotFound("Puzzle not found"));
      }
      if db.tables.puzzles[body.puzzleId.value].gameId != body.gameId.value {
        return Err(BadRequest("Puzzle does not belong to the specified game"));
      }
    }
    var id := db.FreshId();
    db.tables := db.tables.(reports := db.tables.reports[id := Created(body, now)]);
    db.tables := WithImages(db.tables, id, UrlsOf(body.imageUrls));
    r := Ok(id);
  }

  /** A new open report of an existing game, whose puzzle (if any) belongs
      to that game, stored under the next id. */
  lemma {:induction false} AddReportConsistent(s: DbState, report: Report, t: DbState)
    requires Consistent(s) && report.gameId in s.games
    requires report.puzzleId.Some? ==> report.puzzleId.value in s.puzzles && s.puzzles[report.puzzleId.value].gameId == report.gameId
    requires report.status == Open && report.resolvedAt.None?
    requires t == s.(reports := s.reports[s.nextId := report], nextId := s.nextId + 1)
    ensures Consistent(t)
  {
    IdsFreshBumped(s);
    FreshRowIdsBelow(s.reports, s.nextId, report);
    assert IdsFresh(t);
    assert ReportsLinked(t.reports, t.games, t.puzzles);
    assert ReportImagesLinked(t.reportImages, t.reports);
    assert Linked(t);
    assert ResolvedTracked(t.reports);
  }

  lemma CreateReportConsistent(s: DbState, body: NewReport, now: int)
    requires Consistent(s)
    ensures Consistent(CreateReport(s, body, now).state)
  {
    var out := CreateReport(s, body, now);
    if out.result.Ok? {
      var stored := s.(reports := s.reports[s.nextId := Created(body, now)], nextId := s.nextId + 1);
      AddReportConsistent(s, Created(body, now), stored);
      WithImagesConsistent(stored, s.nextId, UrlsOf(body.imageUrls), out.state);
    }
  }

  /** A created report reads back open and unresolved under its id, with
      exactly one image per URL it was given, in URL order. */
  lemma {:induction false} CreateThenGet(s: DbState, body: NewReport, now: int)
    requires Consistent(s) && CreateReport(s, body, now).result.Ok?
    ensures
      var out := CreateReport(s, body, now);
      var q := out.result.value;
      && ReportsLinked(out.state.reports, out.state.games, out.state.puzzles)
      && GetReport(out.state, q).Ok?
      && GetReport(out.state, q).value.report == Created(body, now)
      && GetReport(out.state, q).value.images == ImagesFor(s.nextId + 1, q, UrlsOf(body.imageUrls))
  {
    CreateReportConsistent(s, body, now);
    NewReportImages(s, Created(body, now), UrlsOf(body.imageUrls));
  }

  /** A report stored under the next id has exactly the images stored with
      it. */
  lemma NewReportImages(s: DbState, report: Report, urls: seq<string>)
    requires IdsFresh(s) && ReportImagesLinked(s.reportImages, s.reports)
    ensures
      var t := WithImages(s.(reports := s.reports[s.nextId := report], nextId := s.nextId + 1), s.nextId, urls);
      ImagesOf(t.reportImages, s.nextId) == ImagesFor(s.nextId + 1, s.nextId, urls)
  {
    assert IdsBelow(s.reportImages.Keys, s.nextId);
    forall i | i in s.reportImages ensures s.reportImages[i].reportId != s.nextId {
      assert s.reportImages[i].reportId in s.reports;
    }
    ImagesOfAdded(s.reportImages, s.nextId + 1, s.nextId, urls);
  }

  /** Images stored for a report that had none are all it has. */
  lemma ImagesOfAdded(images: map<int, ReportImage>, base: int, q: int, urls: seq<string>)
    requires forall i :: i in images ==> i < base && images[i].reportId != q
    ensures ImagesOf(images + ImagesFor(base, q, urls), q) == ImagesFor(base, q, urls)
  {
    var added := ImagesFor(base, q, urls);
    var l := ImagesOf(images + added, q);
    forall i | i in l ensures i in added && l[i] == added[i] {
    }
    assert l.Keys == added.Keys;
  }

  /** The body of `PUT /reports/:id`; an absent field is `None` or
      `Missing`. `resolution` may be given as null. */
  datatype ReportPatch = ReportPatch(
    title: Option<string>, description: Option<string>, status: Field<ReportStatus>, priority: Field<Priority>,
    resolution: Option<Option<string>>, reportDate: Field<int>, imageUrls: Field<seq<string>>)

  /** The checks of `PUT /reports/:id`: a title or description, when given,
      is non-empty, and the other fields are of their kind. */
  predicate PatchValid(patch: ReportPatch) {
    && patch.title != Some("") && patch.description != Some("")
    && !patch.status.Malformed? && !patch.priority.Malformed? && !patch.reportDate.Malformed?
    && !patch.imageUrls.Malformed?
  }

  /** When the report was resolved: stamped with `now` on entering the
      resolved status, cleared on leaving it, otherwise kept. */
  function ResolvedAt(r: Report, status: Field<ReportStatus>, now: int): (at: Option<int>)
    ensures status.Given? && status.value == Resolved && r.status != Resolved ==> at == Some(now)
    ensures status.Given? && status.value != Resolved && r.status == Resolved ==> at.None?
    ensures !(status.Given? && (status.value == Resolved) != (r.status == Resolved)) ==> at == r.resolvedAt
  {
    if status.Given? && status.value == Resolved && r.status != Resolved then Some(now)
    else if status.Given? && status.value != Resolved && r.status == Resolved then None
    else r.resolvedAt
  }

  /** The row `prisma.report.update` writes. The game and the puzzle are
      never changed. */
  function PatchedReport(r: Report, patch: ReportPatch, now: int): (out: Report)
    ensures out.gameId == r.gameId && out.puzzleId == r.puzzleId
    ensures out.title == (if patch.title.Some? then patch.title.value else r.title)
    ensures out.description == (if patch.description.Some? then patch.description.value else r.description)
    ensures out.status == (if patch.status.Given? then patch.status.value else r.status)
    ensures out.priority == (if patch.priority.Given? then patch.priority.value else r.priority)
    ensures out.reportDate == (if patch.reportDate.Given? then patch.reportDate.value else r.reportDate)
    ensures out.resolution == (if patch.resolution.Some? then patch.resolution.value else r.resolution)
    ensures out.resolvedAt == ResolvedAt(r, patch.status, now)
  {
    r.(title := if patch.title.Some? then patch.title.value else r.title,
       description := if patch.description.Some? then patch.description.value else r.description,
       status := if patch.status.Given? then patch.status.value else r.status,
       priority := if patch.priority.Given? then patch.priority.value else r.priority,
       reportDate := if patch.reportDate.Given? then patch.reportDate.value else r.reportDate,
       resolution := if patch.resolution.Some? then patch.resolution.value else r.resolution,
       resolvedAt := ResolvedAt(r, patch.status, now))
  }

  /** Patching keeps `resolvedAt` set exactly while the report is resolved. */
  lemma PatchedResolvedTracked(r: Report, patch: ReportPatch, now: int)
    requires r.resolvedAt.Some? <==> r.status == Resolved
    ensures PatchedReport(r, patch, now).resolvedAt.Some? <==> PatchedReport(r, patch, now).status == Resolved
  {
  }

  /** The state after the row is patched, before any image is replaced. */
  function Repatched(s: DbState, id: int, patch: ReportPatch, now: int): DbState
    requires id in s.reports
  {
    s.(reports := s.reports[id := PatchedReport(s.reports[id], patch, now)])
  }

  /** `PUT /reports/:id`: 400 for a malformed body, 404 for an unknown id;
      otherwise the row is patched, and a given URL list replaces every image
      of the report. */
  function UpdateReport(s: DbState, id: int, patch: ReportPatch, now: int): (out: Outcome<Report>)
    ensures !PatchValid(patch) ==> out == Outcome(Err(Invalid), s)
    ensures PatchValid(patch) && id !in s.reports ==> out == Outcome(Err(NotFound("Report not found")), s)
    ensures out.result.Ok? <==> PatchValid(patch) && id in s.reports
    ensures out.result.Ok? ==>
      && out.result.value == PatchedReport(s.reports[id], patch, now)
      && out.state == (if patch.imageUrls.Given? then WithImages(WithoutImages(Repatched(s, id, patch, now), id), id, patch.imageUrls.value)
                       else Repatched(s, id, patch, now))
  {
    if !PatchValid(patch) then Outcome(Err(Invalid), s)
    else if id !in s.reports then Outcome(Err(NotFound("Report not found")), s)
    else
      var t := Repatched(s, id, patch, now);
      Outcome(Ok(t.reports[id]), if patch.imageUrls.Given? then WithImages(WithoutImages(t, id), id, patch.imageUrls.value) else t)
  }

  method HandleUpdateReport(db: Store.Db, id: int, patch: ReportPatch, now: int) returns (r: Result<Report>)
    modifies db
    ensures Outcome(r, db.tables) == UpdateReport(old(db.tables), id, patch, now)
  {
    if !PatchValid(patch) {
      return Err(Invalid);
    }
    if id !in db.tables.reports {
      return Err(NotFound("Report not found"));
    }
    var updated := PatchedReport(db.tables.reports[id], patch, now);
    db.tables := db.tables.(reports := db.tables.reports[id := updated]);
    if patch.imageUrls.Given? {
      db.tables := WithoutImages(db.tables, id);
      db.tables := WithImages(db.tables, id, patch.imageUrls.value);
    }
    r := Ok(updated);
  }

  lemma {:induction false} RepatchedConsistent(s: DbState, id: int, patch: ReportPatch, now: int)
    requires Consistent(s) && id in s.reports
    ensures Consistent(Repatched(s, id, patch, now))
  {
    var t := Repatched(s, id, patch, now);
    PatchedResolvedTracked(s.reports[id], patch, now);
    assert t.reports.Keys == s.reports.Keys;
    assert IdsFresh(t);
    assert ReportsLinked(t.reports, t.games, t.puzzles);
    assert ReportImagesLinked(t.reportImages, t.reports);
    assert Linked(t);
    assert ResolvedTracked(t.reports);
  }

  /** Updating keeps the store consistent; a given URL list leaves the
      report with exactly one image per URL, and none given leaves its images
      as they were. */
  lemma {:induction false} UpdateReportConsistent(s: DbState, id: int, patch: ReportPatch, now: int)
    requires Consistent(s)
    ensures Consistent(UpdateReport(s, id, patch, now).state)
    ensures UpdateReport(s, id, patch, now).result.Ok? ==>
      var t := UpdateReport(s, id, patch, now).state;
      ImagesOf(t.reportImages, id) ==
        (if patch.imageUrls.Given? then ImagesFor(s.nextId, id, patch.imageUrls.value) else ImagesOf(s.reportImages, id))
  {
    if PatchValid(patch) && id in s.reports {
      var t := Repatched(s, id, patch, now);
      RepatchedConsistent(s, id, patch, now);
      if patch.imageUrls.Given? {
        ReplaceImagesConsistent(t, id, patch.imageUrls.value);
      }
    }
  }

  /** Replacing a report's images keeps the store consistent and leaves the
      report with exactly one image per URL. */
  lemma {:induction false} ReplaceImagesConsistent(t: DbState, id: int, urls: seq<string>)
    requires Consistent(t) && id in t.reports
    ensures Consistent(WithImages(WithoutImages(t, id), id, urls))
    ensures ImagesOf(WithImages(WithoutImages(t, id), id, urls).reportImages, id) == ImagesFor(t.nextId, id, urls)
  {
    var cleared := WithoutImages(t, id);
    WithoutImagesConsistent(t, id);
    WithImagesConsistent(cleared, id, urls, WithImages(cleared, id, urls));
    assert IdsBelow(cleared.reportImages.Keys, cleared.nextId);
    ImagesOfAdded(cleared.reportImages, t.nextId, id, urls);
  }

  /** `DELETE /reports/:id`: 404 for an unknown id, otherwise the report
      goes with its images. */
  function DeleteReport(s: DbState, id: int): (out: Outcome<()>)
    ensures id !in s.reports ==> out == Outcome(Err(NotFound("Report not found")), s)
    ensures out.result.Ok? <==> id in s.reports
    ensures out.result.Ok? ==> out.state == WithoutReport(s, id)
  {
    if id !in s.reports then Outcome(Err(NotFound("Report not found")), s)
    else Outcome(Ok(()), WithoutReport(s, id))
  }

  method HandleDeleteReport(db: Store.Db, id: int) returns (r: Result<()>)
    modifies db
    ensures Outcome(r, db.tables) == DeleteReport(old(db.tables), id)
  {
    if id !in db.tables.reports {
      return Err(NotFound("Report not found"));
    }
    db.tables := WithoutReport(db.tables, id);
    r := Ok(());
  }

  /** Deleting a report keeps the store consistent, leaves no image of it
      behind, and the report then reads as unknown. */
  lemma DeleteReportConsistent(s: DbState, id: int)
    requires Consistent(s)
    ensures Consistent(DeleteReport(s, id).state)
    ensures
      var t := DeleteReport(s, id).state;
      && (forall i :: i in t.reportImages ==> t.reportImages[i].reportId != id)
      && ReportsLinked(t.reports, t.games, t.puzzles)
      && GetReport(t, id) == Err(NotFound("Report not found"))
  {
    WithoutReportConsistent(s, id);
  }
}
