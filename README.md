# Workspace multi-tenancy and authorization of Game Master Support

Game Master Support is an escape-room back office. Each game belongs to a
workspace. A puzzle belongs to a game. Hints, maintenance records, reports and
images hang off puzzles and games. Users reach a workspace through a
membership row that carries a role: USER, ADMIN or SUPER_ADMIN, ranked in
that order.

This project models the layer that decides who may see and change what. It
also models the entity rules that keep the store consistent.

- **Store.** The relational store is a value of `Schema.DbState`: one map per
  table and the next autoincrement id. `Store.Db` is the mutable object that
  holds it.
- **Consistency.** `Schema.Consistent` gathers the invariants the routes
  keep:
  - ids lie below the counter;
  - emails are unique;
  - every foreign key points at a row;
  - every workspace keeps an administrator;
  - a report's puzzle belongs to the report's game;
  - `resolvedAt` is set exactly on resolved reports;
  - a puzzle has at most one primary image.
- **Middleware** (`AuthMiddleware`). The bearer-token user check, the
  `X-Workspace-ID` header extractor (a method on a `Request` object), and the
  workspace guard `requireWorkspaceAccess`, with the role ranks of `Roles`.
- **Routes.** Each route that writes is a pure function from a store to an
  `Outcome`: the response and the new store. A handler method performs the
  same queries one by one on `Store.Db`, and its postcondition ties the new
  store to that function. Read-only routes are functions.
  - `WorkspaceRoutes`: workspaces, memberships and invitations.
  - `AuthRoutes`: registration, login and `/auth/me`.
  - `GameRoutes`, `PuzzleRoutes`, `HintRoutes`, `MaintenanceRoutes`: the
    content routes.
  - `ReportRoutes`: report listing, paging and lifecycle.
  - `ReportStats`: the statistics loop.
  - `PuzzleImageRoutes`: puzzle images and their primary flag.
- **Client.** `AuthContext` is the browser's session. Its transitions are
  functions, and the class `AuthContext.AuthProvider` runs the same steps on
  its fields. `ProtectedRoute` is the client's redirect decision.
- **Helpers.** `Js` models JavaScript's `parseInt`, `Number` and `toString`
  on the strings the routes read. `Ordering` models `orderBy`, `skip`/`take`
  paging and page counts.

The model does not hide gaps in the source's checks. Several routes check no
membership at all, and the model states what follows from that. For example:

- `PuzzleRoutes`, `HintRoutes` and `MaintenanceRoutes` read and write single
  rows of any workspace;
- `ReportRoutes.ListAllReportsByQuery` shows the report listing scopes by
  whatever workspace the query names;
- `WorkspaceRoutes.InviteCanGrantSuperAdmin` shows an ADMIN can grant
  SUPER_ADMIN through an invitation of an existing user.

## Model

| member | source | states |
|---|---|---|
| Roles.ParseRole | backend/deploy-package/src/middleware/auth.js:79-83 | a stored role string denotes a role exactly when it is USER, ADMIN or SUPER_ADMIN, and the role's name gives the string back |
| Roles.ParseName | backend/deploy-package/src/middleware/auth.js:79-83 | every role's name parses back to that role |
| Roles.SatisfiesIsTotalOrder | backend/deploy-package/src/middleware/auth.js:79-87 | the rank comparison is reflexive, antisymmetric, transitive and total |
| Roles.RankExtremes | backend/deploy-package/src/middleware/auth.js:79-87 | SUPER_ADMIN passes every check; every role passes the USER check; USER passes only the USER check |
| Roles.AdminTestIsRankTest | backend/src/routes/workspaces.js:170 | the hand-written `['ADMIN', 'SUPER_ADMIN'].includes(role)` test is the guard's rank comparison at ADMIN |
| Js.ParseInt | backend/deploy-package/src/middleware/auth.js:42 | defines `parseInt(s, 10)`: leading white space, an optional sign, then the longest run of decimal digits; NaN without digits |
| Js.ParseIntAutoRadix | backend/deploy-package/src/middleware/auth.js:58 | defines `parseInt(s)` with no radix: as `ParseInt`, except that a `0x` or `0X` prefix after the sign reads hexadecimal digits |
| Js.NumberOf | backend/src/routes/games.js:120 | defines `Number(s)` on text: surrounding white space is ignored, the empty string is 0, signed decimal digits or an unsigned `0x` literal are their value, anything else is NaN |
| Js.IntToString | frontend/src/context/AuthContext.js:49 | defines `toString` of an integer: a minus sign for negatives, then decimal digits with no leading zero; never empty |
| Js.IsIntText | backend/src/routes/games.js:94 | defines validator.js `isInt` with default options: an optional sign, then one or more decimal digits, leading zeros allowed |
| Js.IsEmail | backend/deploy-package/src/routes/auth.js:21 | defines validator.js `isEmail` with default options for unquoted addresses: a dot-atom local part, one `@`, and a domain of labels ending in a TLD |
| Js.ParseIntOfIntToString | backend/deploy-package/src/middleware/auth.js:42 | the decimal text of any integer reads back as that integer, with or without radix 10 |
| Js.NumberOfIntText | backend/src/routes/games.js:94-106 | `Number` reads text that passes `isInt` (optional sign, decimal digits, leading zeros allowed) as the integer it spells |
| Js.NumberOfIntToString | frontend/src/context/AuthContext.js:148 | `Number` reads back the decimal text of any integer |
| Js.Utf16Length | backend/src/routes/workspaces.js:571 | `length` is at least the number of characters and at most twice it |
| Js.Utf16LengthIsCount | backend/src/routes/workspaces.js:571 | `length` equals the number of characters exactly when none lies beyond the Basic Multilingual Plane |
| Js.ThreeEmojiAreSixUnits | backend/src/routes/workspaces.js:571 | three emoji are three characters and six code units |
| Js.EmailNeedsTld | backend/deploy-package/src/routes/auth.js:21 | `isEmail` refuses `a@b`, whose domain has no top-level part |
| Js.EmailWithTldAccepted | backend/deploy-package/src/routes/auth.js:21 | `isEmail` accepts an ordinary address |
| AuthMiddleware.GuardWorkspaceId | backend/deploy-package/src/middleware/auth.js:58 | defines the id the guard reads: `parseInt` with no radix of the path parameter when it is non-empty, else of the body value (a number through its decimal text), else NaN |
| AuthMiddleware.Authenticate | backend/deploy-package/src/middleware/auth.js:15-33 | a token authenticates exactly when its `userId` names an existing user, answering that user without password; an unknown id is 401; a token without `userId` fails the lookup (500) |
| AuthMiddleware.GuardDecision | backend/deploy-package/src/middleware/auth.js:55-96 | a missing, unparsable or zero id is 400 before any lookup; no membership row is 403; admission exactly when the membership role ranks at least the required one; the grant carries the parsed id and the membership's role |
| AuthMiddleware.BodyNumberIsItself | backend/deploy-package/src/middleware/auth.js:58 | a numeric `workspaceId` in the body reaches the guard as itself |
| AuthMiddleware.ParamIsItself | backend/deploy-package/src/middleware/auth.js:58 | a `workspaceId` route parameter written from an integer reaches the guard as that integer |
| AuthMiddleware.DefaultGuardAdmitsMembers | backend/deploy-package/src/middleware/auth.js:55 | with the default USER requirement every member is admitted, with its membership role |
| AuthMiddleware.GuardMonotone | backend/deploy-package/src/middleware/auth.js:85-87 | whoever passes a stricter requirement passes every weaker one with the same grant |
| AuthMiddleware.Request.ExtractWorkspaceId | backend/deploy-package/src/middleware/auth.js:37-46 | a non-empty header sets the current workspace id to `parseInt(header, 10)`; an absent or empty one leaves the request unchanged |
| AuthMiddleware.Request.RequireWorkspaceAccess | backend/deploy-package/src/middleware/auth.js:55-96 | the answer is the guard decision on the store's memberships; on admission `req.workspace` is the grant, otherwise unchanged |
| AuthMiddleware.HeaderRoundTrip | backend/deploy-package/src/middleware/auth.js:40-42 | the id the client writes into `X-Workspace-ID` is truthy text and reads back as the same id |
| AuthRoutes.AddAccount | backend/deploy-package/src/routes/auth.js:50-75 | the account goes in under the next id; the default workspace with the new user as SUPER_ADMIN is added exactly when the store then counts one account |
| AuthRoutes.Register | backend/deploy-package/src/routes/auth.js:17-93 | invalid input is 400 and a taken email 400, both changing nothing; otherwise the writes of `AddAccount` with global role USER, and an answer with the new user and a `{ userId }` token |
| AuthRoutes.FreshAccount | backend/deploy-package/src/routes/auth.js:51-62 | the next id is unused and belongs to no membership, so the account count grows by one |
| AuthRoutes.FirstAccountConsistent | backend/deploy-package/src/routes/auth.js:60-75 | the first account and its default workspace keep every store invariant |
| AuthRoutes.AddAccountConsistent | backend/deploy-package/src/routes/auth.js:50-75 | registering an untaken email keeps every store invariant |
| AuthRoutes.RegisterConsistent | backend/deploy-package/src/routes/auth.js:17-93 | every registration outcome keeps every store invariant |
| AuthRoutes.FirstUserOwnsDefaultWorkspace | backend/deploy-package/src/routes/auth.js:60-75 | the first account is SUPER_ADMIN of the default workspace; any later account starts with no workspace |
| AuthRoutes.HandleRegister | backend/deploy-package/src/routes/auth.js:17-93 | the handler's answer and new store are those of `Register` |
| AuthRoutes.Login | backend/deploy-package/src/routes/auth.js:96-159 | invalid input is 400; success exactly when the email has an account whose hash matches; unknown email and wrong password give the same 401; the answer is that user, a `{ userId }` token and exactly its memberships |
| AuthRoutes.Me | backend/deploy-package/src/routes/auth.js:162-199 | answers exactly when the user exists (else 404), with the user without password and exactly its memberships |
| AuthRoutes.RegisterThenLogin | backend/deploy-package/src/routes/auth.js:17-159 | after a registration, logging in with the same password succeeds as the new account |
| AuthRoutes.LoginThenMe | backend/deploy-package/src/routes/auth.js:96-199 | the login token authenticates as the logged-in user, and `/auth/me` then answers the same profile |
| AuthRoutes.RegisterTokenAuthenticates | backend/deploy-package/src/routes/auth.js:12-14 | the registration token authenticates as the new account |
| WorkspaceRoutes.AdminCheckIsGuard | backend/src/routes/workspaces.js:161-172 | the routes' hand-written admin test admits exactly whom `requireWorkspaceAccess('ADMIN')` would admit for the same id |
| WorkspaceRoutes.ListWorkspaces | backend/src/routes/workspaces.js:20-46 | exactly the caller's workspaces, each with its name and the caller's membership role |
| WorkspaceRoutes.ListedIffGuardAdmits | backend/src/routes/workspaces.js:20-46 | a workspace is listed exactly when the default guard admits the caller to it |
| WorkspaceRoutes.GetWorkspace | backend/src/routes/workspaces.js:49-96 | an unparsable id is 500; success exactly for members (else 403); the answer has the caller's role and exactly the workspace's games |
| WorkspaceRoutes.CreateWorkspace | backend/src/routes/workspaces.js:99-139 | an empty name is 400 changing nothing; otherwise a workspace under a fresh id with the caller as its ADMIN, the id counter advanced by one and no other table changed |
| WorkspaceRoutes.CreateWorkspaceConsistent | backend/src/routes/workspaces.js:117-128 | creation keeps every store invariant; the new id was unused and the creator is its admin |
| WorkspaceRoutes.HandleCreateWorkspace | backend/src/routes/workspaces.js:99-139 | the handler's answer and new store are those of `CreateWorkspace` |
| WorkspaceRoutes.UpdateWorkspace | backend/src/routes/workspaces.js:142-192 | errors change nothing; unparsable id is 500; success exactly for admins; a truthy name and a supplied description (even null) replace the old ones, nothing else changes |
| WorkspaceRoutes.UpdateWorkspaceConsistent | backend/src/routes/workspaces.js:175-181 | an update keeps every store invariant |
| WorkspaceRoutes.HandleUpdateWorkspace | backend/src/routes/workspaces.js:142-192 | the handler's answer and new store are those of `UpdateWorkspace` |
| WorkspaceRoutes.AddableRole | backend/src/routes/workspaces.js:200 | the add route accepts exactly USER and ADMIN, never SUPER_ADMIN |
| WorkspaceRoutes.AddMember | backend/src/routes/workspaces.js:195-267 | invalid input is 400; success exactly for an admin adding an existing account that is not yet a member; then exactly that membership row is added |
| WorkspaceRoutes.AddMemberConsistent | backend/src/routes/workspaces.js:251-257 | adding a member keeps every store invariant |
| WorkspaceRoutes.HandleAddMember | backend/src/routes/workspaces.js:195-267 | the handler's answer and new store are those of `AddMember` |
| WorkspaceRoutes.RemoveMember | backend/src/routes/workspaces.js:270-323 | success exactly for an admin removing an existing membership, and removing themself only while more than one admin remains; exactly that row goes |
| WorkspaceRoutes.RemoveMemberConsistent | backend/src/routes/workspaces.js:292-303 | every workspace keeps at least one ADMIN or SUPER_ADMIN after any removal |
| WorkspaceRoutes.HandleRemoveMember | backend/src/routes/workspaces.js:270-323 | the handler's answer and new store are those of `RemoveMember` |
| WorkspaceRoutes.ListMembers | backend/src/routes/workspaces.js:326-381 | unparsable id is 500; success exactly for members; the answer is exactly the workspace's members, the caller among them, with both roles |
| WorkspaceRoutes.Invite | backend/src/routes/workspaces.js:384-517 | errors change nothing; non-admins get 403; an existing account gets the membership at once; any other email gets an unused invitation under the token, expiring seven days after `now`, and its URL |
| WorkspaceRoutes.InviteOutcome | backend/src/routes/workspaces.js:384-517 | an invitation succeeds exactly for an admin with an email and a stored role, unless the email's account is already a member or, for an email without an account, the token is taken; "already a member" is 400 exactly when an admin invites a member's email |
| WorkspaceRoutes.InviteConsistent | backend/src/routes/workspaces.js:435-483 | an invitation keeps every store invariant |
| WorkspaceRoutes.InviteCanGrantSuperAdmin | backend/src/routes/workspaces.js:435-441 | the add route refuses SUPER_ADMIN while the invite route grants it to an existing account |
| WorkspaceRoutes.HandleInvite | backend/src/routes/workspaces.js:384-517 | the handler's answer and new store are those of `Invite` |
| WorkspaceRoutes.CheckInvitation | backend/src/routes/workspaces.js:531-544 | unknown token 404, expired 400, used 400, in that order; valid exactly when present, not past `expiresAt` and unused |
| WorkspaceRoutes.UsedInvitationRefused | backend/src/routes/workspaces.js:541-544 | a used invitation is refused at every time, as "already used" while unexpired |
| WorkspaceRoutes.VerifyInvitation | backend/src/routes/workspaces.js:520-557 | answers exactly when the checks pass, with the invitation's email, workspace name and role; otherwise the check's error |
| WorkspaceRoutes.AcceptTokenAsWrittenRejected | backend/src/routes/workspaces.js:637-647 | after any successful acceptance the returned `{ user: { id } }` token does not authenticate, although the new account exists |
| WorkspaceRoutes.AcceptTokenAuthenticates | backend/deploy-package/src/routes/auth.js:12-14 | after a successful intended acceptance the `{ userId }` token authenticates as the new account, which has the invited email and the given name |
| WorkspaceRoutes.AcceptInvitation | backend/src/routes/workspaces.js:560-657 | missing name or password and passwords under six UTF-16 code units are 400 before any lookup; success exactly when the invitation checks pass and the email has no account; then one USER account with the invited membership, the invitation marked used, and `{ user: { id } }` claims for the new id |
| WorkspaceRoutes.AcceptInvitationIntended | backend/src/routes/workspaces.js:637-641 | the same errors and the same new store as `AcceptInvitation`; only the signed claims differ |
| WorkspaceRoutes.AcceptCountsCodeUnits | backend/src/routes/workspaces.js:571-573 | a password of three emoji, six code units, passes the length check |
| WorkspaceRoutes.AcceptInvitationConsistent | backend/src/routes/workspaces.js:612-631 | acceptance keeps every store invariant |
| WorkspaceRoutes.AcceptIsSingleUse | backend/src/routes/workspaces.js:591-631 | after one successful acceptance the same token is refused and changes nothing, whatever is sent |
| WorkspaceRoutes.HandleAcceptInvitation | backend/src/routes/workspaces.js:560-657 | the handler's answer and new store are those of `AcceptInvitation` |
| Ordering.First | backend/src/routes/reports.js:75-84 | the row listed first may be listed before every other row |
| Ordering.SortedBy | backend/src/routes/reports.js:75-84 | `orderBy` lists every row once, with no repeats, in rank order with ties broken by id |
| Ordering.Slice | backend/src/routes/reports.js:79-82 | `skip`/`take`: at most `take` rows, exactly the rows from position `skip` on |
| Ordering.SliceOfDistinct | backend/src/routes/reports.js:79-82 | a page of a listing without repeats has no repeats and holds only rows of the listing |
| Ordering.CeilDiv | backend/src/routes/reports.js:98 | `Math.ceil(total / limit)`: the fewest pages of `limit` rows that hold `total` rows |
| Ordering.PagesPartition | backend/src/routes/reports.js:27-98 | the row at position `i` is on page `i / limit + 1` and on no other, and that page is within `totalPages` |
| Js.IntToStringSignedDecimal | frontend/src/context/AuthContext.js:49 | `toString` of an integer is an optionally signed run of digits with its value |
| Store.Db.FreshId | backend/src/routes/workspaces.js:99-139 | the autoincrement counter hands out its current value and moves past it, and nothing else changes |
| AuthMiddleware.Request.constructor | backend/deploy-package/src/middleware/auth.js:15-33 | an authenticated request carries its user's id and no workspace yet |
| Schema.Consistent | backend/src/routes/workspaces.js:291-303 | defines the invariants the routes keep: fresh ids below the counter, every link names an existing row, unique emails, an admin in every workspace, `resolvedAt` set exactly for resolved reports, and at most one primary image per puzzle |
| Schema.WithoutGame | backend/src/routes/games.js:237-239 | defines the store after `game.delete` with the schema's cascades: the game, its puzzles with their hints, maintenance records and images, and its reports with their images are removed |
| Schema.WithoutPuzzle | backend/src/routes/puzzles.js:119-121 | defines the store after `puzzle.delete`: the puzzle, its hints, maintenance records and images are removed, and reports naming it are detached |
| Schema.WithoutReport | backend/src/routes/reports.js:638-662 | defines the store after `report.delete`: the report and its images are removed |
| Schema.EmptyDbConsistent | backend/deploy-package/src/routes/auth.js:60-62 | the empty store, before the first registration, satisfies every store invariant |
| Schema.MoreMembershipsKeepAdmins | backend/src/routes/workspaces.js:251-257 | adding membership rows never leaves a workspace without an admin |
| Schema.AddUserConsistent | backend/deploy-package/src/routes/auth.js:51-58 | an account with an untaken email under the next id keeps every store invariant |
| Schema.AddMembershipConsistent | backend/src/routes/workspaces.js:251-257 | a new membership of an existing user in an existing workspace keeps every store invariant |
| Schema.AddWorkspaceConsistent | backend/src/routes/workspaces.js:117-128 | a workspace created together with an admin membership keeps every store invariant |
| Schema.SetInvitationConsistent | backend/src/routes/workspaces.js:474-483 | an invitation row (new, or marked used) for an existing workspace and inviter keeps every store invariant |
| Schema.UserByEmail | backend/src/routes/workspaces.js:228-234 | finds the account with that email when there is one, and none only when no account has it |
| Schema.Public | backend/deploy-package/src/routes/auth.js:80-81 | the user as sent carries its id, email, name and role and no password |
| Schema.AdminsOf | backend/src/routes/workspaces.js:293-298 | exactly the members of the workspace holding ADMIN or SUPER_ADMIN |
| Schema.ColumnId | backend/src/routes/games.js:24-31 | a number is accepted as an id column exactly when it is not NaN; NaN is a store error (500) |
| Schema.RequestedWorkspace | backend/src/routes/games.js:13-21 | a non-empty query parameter names the workspace through `Number`, else a truthy header id, else none |
| Schema.ListScope | backend/src/routes/games.js:13-36 | NaN is a store error; a list is scoped to a workspace exactly when one is named and the caller belongs to it, otherwise it is empty |
| Schema.PuzzlesOfGame | backend/src/routes/games.js:237-239 | exactly the puzzles of the game |
| Schema.ReportsOfGame | backend/src/routes/games.js:237-239 | exactly the reports of the game |
| Schema.WithoutGameLinked | backend/src/routes/games.js:237-239 | deleting a game with its cascade leaves no row referring to a deleted one |
| Schema.WithoutGameConsistent | backend/src/routes/games.js:237-239 | deleting a game keeps every store invariant; no puzzle or report of it remains and every other puzzle stays |
| Schema.WithoutPuzzleLinked | backend/src/routes/puzzles.js:119-121 | deleting a puzzle with its cascade leaves no row referring to a deleted one |
| Schema.WithoutPuzzleConsistent | backend/src/routes/puzzles.js:119-121 | deleting a puzzle keeps every store invariant; every report stays, those naming the puzzle detached from it |
| Schema.WithoutReportConsistent | backend/src/routes/reports.js:638-662 | deleting a report keeps every store invariant and leaves no image of it |
| GameRoutes.IntBody | backend/src/routes/games.js:94 | defines `body('workspaceId').optional().isInt()`: an absent id or a JSON number passes, a string passes when it is integer text, anything else fails |
| GameRoutes.CreateTarget | backend/src/routes/games.js:106-108 | defines the `workspaceId`, else query, else current-workspace fallback with JSON truthiness: a non-zero number or a non-empty string from the body wins, read by `Number`; otherwise the query, then the header |
| GameRoutes.NewGame | backend/src/routes/games.js:129-139 | defines the row `game.create` stores: the body's name, genre, dates, description and image URL, under the resolved workspace |
| GameRoutes.ListGames | backend/src/routes/games.js:10-54 | an unparsable named workspace is 500; otherwise exactly the games of the named workspace when the caller belongs to it, and an empty list when no workspace is named or the caller is not a member |
| GameRoutes.ListGamesByQuery | backend/src/routes/games.js:13-46 | naming workspace `w` in the query lists exactly `w`'s games for a member of `w` and nothing for anyone else |
| GameRoutes.GetGame | backend/src/routes/games.js:57-86 | as written: unknown id 404; success exactly when the request's header workspace equals the game's workspace, with no membership consulted; the answer is the game and exactly its puzzles |
| GameRoutes.GetGameChecked | backend/src/routes/games.js:163-183 | corrected: unknown id 404; success exactly when the caller belongs to the game's workspace, else 403 |
| GameRoutes.TwoTenantStore | backend/src/routes/games.js:57-86 | a store in which user 2 belongs to no workspace while game 4 lives in workspace 3 |
| GameRoutes.TwoTenantStoreConsistent | backend/src/routes/games.js:57-86 | that store satisfies every store invariant |
| GameRoutes.NonMemberReadsGame | backend/src/routes/games.js:77-80 | as written, a user of no workspace reads another workspace's game by naming it in the header; the checked route refuses that user |
| GameRoutes.GetGameCheckedOnlyMembers | backend/src/routes/games.js:163-183 | the checked route admits exactly the members of the game's workspace, which exists |
| GameRoutes.ListGamePuzzles | backend/src/routes/games.js:250-288 | unknown game 404; success exactly for members of its workspace, else 403; the answer is exactly the game's puzzles |
| GameRoutes.CreateGame | backend/src/routes/games.js:89-145 | errors change nothing; empty name or genre or a body id that fails `isInt` is 400; a truthy body id (a non-zero number or any non-empty string, `"0"` included) names the workspace, before the query and the header; no workspace named 400, unparsable 500; success exactly for a member of the named existing workspace; the game goes in under the next id there |
| GameRoutes.BodyTextIsTarget | backend/src/routes/games.js:94-110 | a body id given as text that passes `isInt` names the workspace it spells, whatever the query and the header say |
| GameRoutes.ZeroTextRefused | backend/src/routes/games.js:94-128 | the JSON string `"0"` passes `isInt` and is truthy, so it names workspace 0 and a caller who is not a member there gets 403, whatever the query and the header say |
| GameRoutes.HandleCreateGame | backend/src/routes/games.js:89-145 | the handler's answer and new store are those of `CreateGame` |
| GameRoutes.AddGameConsistent | backend/src/routes/games.js:129-139 | a game stored in an existing workspace keeps every store invariant |
| GameRoutes.CreateGameConsistent | backend/src/routes/games.js:89-145 | every creation outcome keeps every store invariant |
| GameRoutes.CreateThenList | backend/src/routes/games.js:10-145 | a created game is listed to its creator under the workspace it went into |
| GameRoutes.Patched | backend/src/routes/games.js:185-197 | supplied fields replace the stored ones, absent ones keep them, the dates are always rewritten and the workspace never changes |
| GameRoutes.PatchedTakesEverySuppliedField | backend/src/routes/games.js:185-197 | an update supplying every field yields exactly those values in the same workspace |
| GameRoutes.UpdateGame | backend/src/routes/games.js:148-207 | unknown id 404 and non-members 403, changing nothing; otherwise the row is patched in place and stays in its workspace |
| GameRoutes.HandleUpdateGame | backend/src/routes/games.js:148-207 | the handler's answer and new store are those of `UpdateGame` |
| GameRoutes.SetGameConsistent | backend/src/routes/games.js:187-197 | rewriting a game within its workspace keeps every store invariant |
| GameRoutes.UpdateGameConsistent | backend/src/routes/games.js:148-207 | every update outcome keeps every store invariant |
| GameRoutes.DeleteGame | backend/src/routes/games.js:210-247 | unknown id 404 and non-members 403, changing nothing; otherwise the game and everything it owns goes |
| GameRoutes.HandleDeleteGame | backend/src/routes/games.js:210-247 | the handler's answer and new store are those of `DeleteGame` |
| GameRoutes.DeleteGameConsistent | backend/src/routes/games.js:237-239 | deletion keeps every store invariant; the game then reads as unknown and owns no puzzle |
| HintRoutes.ListHints | backend/src/routes/hints.js:10-62 | an unparsable named workspace is 500; otherwise exactly the hints of puzzles of games of the named workspace for a member, and nothing otherwise |
| HintRoutes.ListHintsByQuery | backend/src/routes/hints.js:13-54 | naming workspace `w` lists exactly the hints of `w`'s puzzles for a member of `w` and nothing for anyone else |
| HintRoutes.GetHint | backend/src/routes/hints.js:65-87 | answers exactly for a stored id (else 404), with the hint, its puzzle and the puzzle's game |
| HintRoutes.CreateHint | backend/src/routes/hints.js:90-116 | errors change nothing; empty content or a non-integer puzzle id is 400, an unknown puzzle 500; otherwise the hint with flags defaulting to false goes in under the next id |
| HintRoutes.HandleCreateHint | backend/src/routes/hints.js:90-116 | the handler's answer and new store are those of `CreateHint` |
| HintRoutes.AddHintConsistent | backend/src/routes/hints.js:103-110 | a hint of an existing puzzle keeps every store invariant |
| HintRoutes.CreateHintConsistent | backend/src/routes/hints.js:90-116 | every creation outcome keeps every store invariant |
| HintRoutes.CreateThenGet | backend/src/routes/hints.js:65-116 | a created hint reads back unchanged under its id with the puzzle it names |
| HintRoutes.PatchedHint | backend/src/routes/hints.js:133-140 | supplied fields replace the stored ones, absent ones keep them, the puzzle never changes |
| HintRoutes.UpdateHint | backend/src/routes/hints.js:119-150 | unknown id 404 changing nothing; otherwise the row is patched in place |
| HintRoutes.HandleUpdateHint | backend/src/routes/hints.js:119-150 | the handler's answer and new store are those of `UpdateHint` |
| HintRoutes.UpdateHintConsistent | backend/src/routes/hints.js:119-150 | every update outcome keeps every store invariant |
| HintRoutes.DeleteHint | backend/src/routes/hints.js:153-166 | unknown id 404 changing nothing; otherwise exactly that row goes |
| HintRoutes.HandleDeleteHint | backend/src/routes/hints.js:153-166 | the handler's answer and new store are those of `DeleteHint` |
| HintRoutes.DeleteHintConsistent | backend/src/routes/hints.js:153-166 | deletion keeps every store invariant and the hint then reads as unknown |
| MaintenanceRoutes.ListMaintenance | backend/src/routes/maintenance.js:10-62 | an unparsable named workspace is 500; otherwise exactly the records of puzzles of games of the named workspace for a member, and nothing otherwise |
| MaintenanceRoutes.ListMaintenanceByQuery | backend/src/routes/maintenance.js:13-54 | naming workspace `w` lists exactly the records of `w`'s puzzles for a member of `w` and nothing for anyone else |
| MaintenanceRoutes.GetMaintenance | backend/src/routes/maintenance.js:65-87 | answers exactly for a stored id (else 404), with the record, its puzzle and the puzzle's game |
| MaintenanceRoutes.CreateMaintenance | backend/src/routes/maintenance.js:90-117 | errors change nothing; an empty description, a bad fix date or a non-integer puzzle id is 400, an unknown puzzle 500; otherwise the record, status `planned` by default, goes in under the next id |
| MaintenanceRoutes.HandleCreateMaintenance | backend/src/routes/maintenance.js:90-117 | the handler's answer and new store are those of `CreateMaintenance` |
| MaintenanceRoutes.AddMaintenanceConsistent | backend/src/routes/maintenance.js:104-111 | a record of an existing puzzle keeps every store invariant |
| MaintenanceRoutes.CreateMaintenanceConsistent | backend/src/routes/maintenance.js:90-117 | every creation outcome keeps every store invariant |
| MaintenanceRoutes.CreateThenGet | backend/src/routes/maintenance.js:65-117 | a created record reads back unchanged under its id with the puzzle it names |
| MaintenanceRoutes.PatchedMaintenance | backend/src/routes/maintenance.js:134-141 | supplied fields replace the stored ones, absent ones (an empty fix date included) keep them, the puzzle never changes |
| MaintenanceRoutes.UpdateMaintenance | backend/src/routes/maintenance.js:120-151 | unknown id 404 changing nothing; otherwise the row is patched in place, keeping its fix date when none is sent |
| MaintenanceRoutes.HandleUpdateMaintenance | backend/src/routes/maintenance.js:120-151 | the handler's answer and new store are those of `UpdateMaintenance` |
| MaintenanceRoutes.UpdateMaintenanceConsistent | backend/src/routes/maintenance.js:120-151 | every update outcome keeps every store invariant |
| MaintenanceRoutes.DeleteMaintenance | backend/src/routes/maintenance.js:154-167 | unknown id 404 changing nothing; otherwise exactly that row goes |
| MaintenanceRoutes.HandleDeleteMaintenance | backend/src/routes/maintenance.js:154-167 | the handler's answer and new store are those of `DeleteMaintenance` |
| MaintenanceRoutes.DeleteMaintenanceConsistent | backend/src/routes/maintenance.js:154-167 | deletion keeps every store invariant and the record then reads as unknown |
| PuzzleRoutes.ListPuzzles | backend/src/routes/puzzles.js:9-23 | every puzzle of every workspace, each with its own game, whoever asks |
| PuzzleRoutes.HintsOfPuzzle | backend/src/routes/puzzles.js:132-142 | exactly the hints naming the puzzle, unchanged; an unknown puzzle gets an empty list, not 404 |
| PuzzleRoutes.MaintenanceOfPuzzle | backend/src/routes/puzzles.js:145-155 | exactly the maintenance records naming the puzzle, unchanged |
| PuzzleRoutes.GetPuzzle | backend/src/routes/puzzles.js:26-46 | answers exactly for a stored id (else 404), with its game, exactly its hints and exactly its maintenance records |
| PuzzleRoutes.NewPuzzle | backend/src/routes/puzzles.js:62-71 | an empty description becomes `''`, an empty status `active`, a missing or zero difficulty 1; title, game and image as sent |
| PuzzleRoutes.CreatePuzzle | backend/src/routes/puzzles.js:49-77 | errors change nothing; an empty title or a non-integer game id is 400, an unknown game 500; otherwise the new puzzle goes in under the next id |
| PuzzleRoutes.HandleCreatePuzzle | backend/src/routes/puzzles.js:49-77 | the handler's answer and new store are those of `CreatePuzzle` |
| PuzzleRoutes.AddPuzzleConsistent | backend/src/routes/puzzles.js:62-71 | a puzzle of an existing game keeps every store invariant |
| PuzzleRoutes.CreatePuzzleConsistent | backend/src/routes/puzzles.js:49-77 | every creation outcome keeps every store invariant |
| PuzzleRoutes.CreateThenGet | backend/src/routes/puzzles.js:26-77 | a created puzzle reads back with its defaults, its game, no hints and no maintenance records |
| PuzzleRoutes.PatchedPuzzle | backend/src/routes/puzzles.js:94-103 | supplied fields replace the stored ones, the difficulty only when truthy, the game never changes |
| PuzzleRoutes.PatchedPuzzleIdentity | backend/src/routes/puzzles.js:100 | an empty patch changes nothing, a zero difficulty included |
| PuzzleRoutes.UpdatePuzzle | backend/src/routes/puzzles.js:80-113 | unknown id 404 changing nothing; otherwise the row is patched in place under the same game |
| PuzzleRoutes.HandleUpdatePuzzle | backend/src/routes/puzzles.js:80-113 | the handler's answer and new store are those of `UpdatePuzzle` |
| PuzzleRoutes.SetPuzzleConsistent | backend/src/routes/puzzles.js:94-103 | rewriting a puzzle under the same game keeps every store invariant |
| PuzzleRoutes.UpdatePuzzleConsistent | backend/src/routes/puzzles.js:80-113 | every update outcome keeps every store invariant |
| PuzzleRoutes.DeletePuzzle | backend/src/routes/puzzles.js:116-129 | unknown id 404 changing nothing; otherwise the puzzle goes with its hints, maintenance records and images |
| PuzzleRoutes.HandleDeletePuzzle | backend/src/routes/puzzles.js:116-129 | the handler's answer and new store are those of `DeletePuzzle` |
| PuzzleRoutes.DeletePuzzleConsistent | backend/src/routes/puzzles.js:116-129 | deletion keeps every store invariant; the puzzle then reads as unknown with no hints and no maintenance records |
| PuzzleRoutes.NoChildrenOfMissingPuzzle | backend/src/routes/puzzles.js:132-155 | in a linked store an unknown puzzle id has no hints and no maintenance records |
| ReportRoutes.QueryNumber | backend/src/routes/reports.js:25-27 | defines `parseInt` of a query parameter with no radix, or the parameter's default when it is absent |
| ReportRoutes.PagingValid | backend/src/routes/reports.js:25-28 | defines when the store accepts the paging: page and limit parse, the skip and the limit are not negative, and the sort order is `asc` or `desc` |
| ReportRoutes.Matches | backend/src/routes/reports.js:30-53 | defines the where-clause: the report is in the workspace scope, has the status when a known status is named, and contains the search text in its title or description when one is given |
| ReportRoutes.Paged | backend/src/routes/reports.js:55-99 | defines the answer: the page slice of the date-ordered listing, the count of every match, the page, the limit and `ceil(total / limit)` pages (absent for limit 0) |
| ReportRoutes.ParseStatus | backend/src/routes/reports.js:43-45 | exactly the three status strings filter, each as the status it names; any other string applies no filter |
| ReportRoutes.StatusNameRoundTrip | backend/src/routes/reports.js:43-45 | every status's string filters by that status |
| ReportRoutes.WorkspaceScope | backend/src/routes/reports.js:34-40 | no workspace named lists every report; a named workspace scopes to its games' reports; NaN is a store error |
| ReportRoutes.Matching | backend/src/routes/reports.js:30-53 | exactly the reports in scope, of the named status when one is named, containing the search text when there is one |
| ReportRoutes.DateRank | backend/src/routes/reports.js:80 | the sort key is the report date, negated for a newest-first listing |
| ReportRoutes.Listing | backend/src/routes/reports.js:55-83 | every matching report exactly once, in the requested date order |
| ReportRoutes.RankedInDateOrder | backend/src/routes/reports.js:80 | a listing ordered by the rank is in date order |
| ReportRoutes.Skip | backend/src/routes/reports.js:27 | the skip is not negative for page at least 1 and a non-negative limit |
| ReportRoutes.ListReports | backend/src/routes/reports.js:107-254 | success exactly when paging is one the store accepts (else 500); `total` counts every match, the ids are the listing with `(page - 1) * limit` skipped and at most `limit` taken, `totalPages` is the ceiling of total over limit |
| ReportRoutes.ListedPage | backend/src/routes/reports.js:55-99 | a page holds at most `limit` reports, each matching, none twice, in the requested date order |
| ReportRoutes.SliceInDateOrder | backend/src/routes/reports.js:80-82 | skipping and taking keep date order |
| ReportRoutes.ListAllReports | backend/src/routes/reports.js:10-104 | `GET /reports` is the listing of every report when no workspace is named and of the named workspace's reports otherwise; NaN is 500 |
| ReportRoutes.ListAllReportsByQuery | backend/src/routes/reports.js:34-40 | naming workspace `w` lists only reports of `w`'s games and counts all of them, whoever asks |
| ReportRoutes.PageWithinTotal | backend/src/routes/reports.js:96-98 | every matching report's page lies between 1 and `totalPages` |
| ReportRoutes.EveryMatchOnOnePage | backend/src/routes/reports.js:27-28 | with a positive limit every matching report appears on exactly one page |
| ReportRoutes.PageMembership | backend/src/routes/reports.js:27-28 | a report of a repeat-free listing is on a page exactly when its position falls there |
| ReportRoutes.ImagesOf | backend/src/routes/reports.js:378-423 | exactly the images of the report, unchanged |
| ReportRoutes.GetReport | backend/src/routes/reports.js:378-423 | answers exactly for a stored id (else 404), with its game's name, its puzzle's title exactly when it names one, and exactly its images; no caller consulted |
| ReportRoutes.ImagesFor | backend/src/routes/reports.js:493-500 | every image stored lies among the new ids and belongs to the report |
| ReportRoutes.ImagesForAt | backend/src/routes/reports.js:493-500 | the `k`-th URL is stored under id `base + k` for the report |
| ReportRoutes.ImagesForAll | backend/src/routes/reports.js:493-500 | one image per URL for the report, under consecutive ids in list order |
| ReportRoutes.ImagesOfUnion | backend/src/routes/reports.js:493-500 | images stored under unused ids join the report's existing images |
| ReportRoutes.WithImagesConsistent | backend/src/routes/reports.js:493-500 | storing a report's images keeps every store invariant and adds exactly those images |
| ReportRoutes.WithoutImagesConsistent | backend/src/routes/reports.js:597-601 | deleting a report's images keeps every store invariant and leaves it none |
| ReportRoutes.Created | backend/src/routes/reports.js:480-490 | the new row: title, description and game as sent, the puzzle only when truthy, the date defaulting to now, priority defaulting to high, open and unresolved |
| ReportRoutes.CreateReport | backend/src/routes/reports.js:426-521 | errors change nothing; a malformed body 400; unknown game or named puzzle 404; a puzzle of another game 400; otherwise the report under the next id with one image per URL after it |
| ReportRoutes.HandleCreateReport | backend/src/routes/reports.js:426-521 | the handler's answer and new store are those of `CreateReport` |
| ReportRoutes.AddReportConsistent | backend/src/routes/reports.js:480-490 | a new open report of an existing game, whose puzzle belongs to it, keeps every store invariant |
| ReportRoutes.CreateReportConsistent | backend/src/routes/reports.js:426-521 | every creation outcome keeps every store invariant |
| ReportRoutes.CreateThenGet | backend/src/routes/reports.js:378-521 | a created report reads back as created, with exactly one image per URL in URL order |
| ReportRoutes.NewReportImages | backend/src/routes/reports.js:478-509 | a report stored under the next id has exactly the images stored with it |
| ReportRoutes.ImagesOfAdded | backend/src/routes/reports.js:493-500 | images stored for a report that had none are all it has |
| ReportRoutes.ResolvedAt | backend/src/routes/reports.js:571-584 | stamped with now on entering the resolved status, cleared on leaving it, otherwise kept |
| ReportRoutes.PatchedReport | backend/src/routes/reports.js:563-594 | supplied fields replace the stored ones, absent ones keep them, game and puzzle never change, `resolvedAt` follows the status change |
| ReportRoutes.PatchedResolvedTracked | backend/src/routes/reports.js:571-584 | patching keeps `resolvedAt` set exactly while the report is resolved |
| ReportRoutes.UpdateReport | backend/src/routes/reports.js:524-635 | malformed body 400 and unknown id 404, changing nothing; otherwise the row is patched and a given URL list replaces every image |
| ReportRoutes.HandleUpdateReport | backend/src/routes/reports.js:524-635 | the handler's answer and new store are those of `UpdateReport` |
| ReportRoutes.RepatchedConsistent | backend/src/routes/reports.js:590-594 | patching a report's row keeps every store invariant |
| ReportRoutes.UpdateReportConsistent | backend/src/routes/reports.js:524-635 | every update outcome keeps every store invariant; a given URL list leaves exactly one image per URL, none given leaves the images as they were |
| ReportRoutes.ReplaceImagesConsistent | backend/src/routes/reports.js:597-612 | replacing a report's images keeps every store invariant and leaves exactly one image per URL |
| ReportRoutes.DeleteReport | backend/src/routes/reports.js:638-662 | unknown id 404 changing nothing; otherwise the report goes with its images |
| ReportRoutes.HandleDeleteReport | backend/src/routes/reports.js:638-662 | the handler's answer and new store are those of `DeleteReport` |
| ReportRoutes.DeleteReportConsistent | backend/src/routes/reports.js:638-662 | deletion keeps every store invariant, leaves no image of the report and the report then reads as unknown |
| ReportStats.AddToGame | backend/src/routes/reports.js:312-362 | defines one iteration's increments to a game's entry: the game counters, and the puzzle's entry (created on first sight) when the report names a puzzle |
| ReportStats.Step | backend/src/routes/reports.js:312-362 | defines one iteration of the `forEach`: the report's game entry is created on first sight and then updated by `AddToGame` |
| ReportStats.Tally | backend/src/routes/reports.js:312-362 | defines the dictionary after the `forEach` has seen a prefix of the rows, one `Step` per row in order |
| ReportStats.Bump | backend/src/routes/reports.js:327-335 | one more report raises the total and exactly the counter of its status by one |
| ReportStats.Increment | backend/src/routes/reports.js:327-335 | the in-place increments compute `Bump` |
| ReportStats.ComputeStats | backend/src/routes/reports.js:308-362 | the `forEach` loop builds the dictionary `Tally` describes |
| ReportStats.KeepMembers | backend/src/routes/reports.js:312-362 | a filtered list holds exactly the rows that pass |
| ReportStats.CensusPartition | backend/src/routes/reports.js:327-335 | every report has exactly one status, so the three status counters add up to the total |
| ReportStats.CensusAppend | backend/src/routes/reports.js:327-335 | counting one more report is `Bump` of the counts before it |
| ReportStats.PuzzleTotalsWithout | backend/src/routes/reports.js:337-361 | the sum of the puzzle totals does not depend on the order of the entries |
| ReportStats.PuzzleTotalsBump | backend/src/routes/reports.js:352-353 | counting one more report for a puzzle raises the sum of the puzzle totals by one |
| ReportStats.AddToGameDescribes | backend/src/routes/reports.js:312-362 | one loop step keeps a game's entry describing its reports: first report's name, their counters, their puzzles |
| ReportStats.StepGame | backend/src/routes/reports.js:312-362 | one loop step keeps every game's entry describing exactly that game's reports |
| ReportStats.TallySummarises | backend/src/routes/reports.js:308-362 | after the loop every game's entry exists exactly when it has a report and describes its reports |
| ReportStats.StatsGames | backend/src/routes/reports.js:315-325 | the dictionary has an entry for a game exactly when one of the reports is of that game |
| ReportStats.StatsCounts | backend/src/routes/reports.js:327-335 | a game's total is its number of reports, its status counters add up to it, and its puzzle totals add up to at most it |
| ReportStats.StatsPuzzles | backend/src/routes/reports.js:337-361 | a game has a puzzle entry exactly when one of its reports names that puzzle (truthy id), whose total is at most the game's |
| ReportStats.InIdOrder | backend/src/routes/reports.js:292-306 | every selected report exactly once |
| ReportStats.ReportStats | backend/src/routes/reports.js:257-375 | a NaN workspace id is 500; otherwise the statistics of the selected reports |
| ReportStats.HandleReportStats | backend/src/routes/reports.js:257-375 | the handler answers `ReportStats` and changes nothing |
| ReportStats.GamesSelected | backend/src/routes/reports.js:284-289 | every counted game has a selected report, exists, and lies in the scoped workspace |
| ReportStats.PuzzlesOfGame | backend/src/routes/reports.js:337-361 | every puzzle entry is a puzzle of its game |
| ReportStats.StatsOfQueriedWorkspace | backend/src/routes/reports.js:284-289 | a workspace id in the query is the scope, whoever asks |
| ReportStats.StatsStayInWorkspace | backend/src/routes/reports.js:284-306 | with a workspace id in the query, every game counted belongs to it and every puzzle entry to its game, whatever workspaces the caller belongs to |
| ReportStats.CountOfGame | backend/src/routes/reports.js:312-328 | the rows of a game in a repeat-free listing are as many as the game's reports in it |
| ReportStats.StatsTotals | backend/src/routes/reports.js:257-375 | each game's total is the number of its reports the route selected |
| PuzzleImageRoutes.ImagesOfPuzzle | backend/deploy-package/src/routes/puzzleImages.js:38-40 | exactly the images whose puzzle is `p` |
| PuzzleImageRoutes.PrimaryFirst | backend/deploy-package/src/routes/puzzleImages.js:14 | every listed image gets a rank |
| PuzzleImageRoutes.ListPuzzleImages | backend/deploy-package/src/routes/puzzleImages.js:9-20 | a puzzle id that is NaN fails with 500; otherwise every image of the puzzle, each once and nothing else |
| PuzzleImageRoutes.ListedPrimaryFirst | backend/deploy-package/src/routes/puzzleImages.js:12-15 | no non-primary image is listed before a primary one |
| PuzzleImageRoutes.CaptionOf | backend/deploy-package/src/routes/puzzleImages.js:50 | an empty or missing caption is stored as null; any other caption is kept |
| PuzzleImageRoutes.Creating | backend/deploy-package/src/routes/puzzleImages.js:46-57 | the calls take consecutive fresh ids, at most one per image |
| PuzzleImageRoutes.CreatePuzzleImages | backend/deploy-package/src/routes/puzzleImages.js:23-63 | a 400 exactly when `puzzleId` or `images` fails validation, and it changes nothing; every other failure is a 500; only the image table and the id counter change |
| PuzzleImageRoutes.CreatePuzzleImagesKeeps | backend/deploy-package/src/routes/puzzleImages.js:37-57 | existing images stay as they were; new images take fresh ids from the counter up; an accepted request adds exactly the ids it reports |
| PuzzleImageRoutes.HandleCreatePuzzleImages | backend/deploy-package/src/routes/puzzleImages.js:23-63 | the handler answers and changes the store as `CreatePuzzleImages` says |
| PuzzleImageRoutes.CreatingKeys | backend/deploy-package/src/routes/puzzleImages.js:46-57 | the calls add exactly the images under the ids they report |
| PuzzleImageRoutes.CreatingKeeps | backend/deploy-package/src/routes/puzzleImages.js:46-57 | the calls leave the existing images untouched |
| PuzzleImageRoutes.CreatingRows | backend/deploy-package/src/routes/puzzleImages.js:46-55 | every added image belongs to the puzzle, which exists, and only the image at index 0 can be primary |
| PuzzleImageRoutes.CreatingFails | backend/deploy-package/src/routes/puzzleImages.js:46-57 | a call fails exactly when an image has no URL or the puzzle does not exist |
| PuzzleImageRoutes.CreatingAll | backend/deploy-package/src/routes/puzzleImages.js:46-57 | when no call fails, image `k` is stored under the `k`-th id with its URL and caption, primary exactly when it is first and `primary` holds |
| PuzzleImageRoutes.CreatePuzzleImagesConsistent | backend/deploy-package/src/routes/puzzleImages.js:37-57 | creating images keeps the store consistent, so each puzzle still has at most one primary image |
| PuzzleImageRoutes.CreateSetsFirstPrimary | backend/deploy-package/src/routes/puzzleImages.js:42-58 | on success one image is stored per input, in order, with its URL and puzzle; the first is primary exactly when the puzzle had no images |
| PuzzleImageRoutes.CreateFailures | backend/deploy-package/src/routes/puzzleImages.js:57-61 | a valid body fails with 500 exactly when an image lacks a URL or the puzzle does not exist |
| PuzzleImageRoutes.ImagesReplacedConsistent | backend/deploy-package/src/routes/puzzleImages.js:46-57 | a new image table that is linked, has at most one primary per puzzle and ids below the counter keeps the store consistent |
| PuzzleImageRoutes.Patched | backend/deploy-package/src/routes/puzzleImages.js:97-100 | the URL and puzzle are kept; caption and flag change only when the body gives them |
| PuzzleImageRoutes.Unset | backend/deploy-package/src/routes/puzzleImages.js:87-93 | clearing the flags keeps the set of images |
| PuzzleImageRoutes.UpdatePuzzleImage | backend/deploy-package/src/routes/puzzleImages.js:66-110 | an unknown id gives 404 and changes nothing; otherwise the stored image is the patched image and it is returned; every other image keeps its URL, caption and puzzle, and loses its primary flag exactly when the patch makes this image primary and it belongs to the same puzzle; no other table changes |
| PuzzleImageRoutes.HandleUpdatePuzzleImage | backend/deploy-package/src/routes/puzzleImages.js:66-110 | the handler answers and changes the store as `UpdatePuzzleImage` says |
| PuzzleImageRoutes.UpdatePuzzleImageConsistent | backend/deploy-package/src/routes/puzzleImages.js:80-100 | an update keeps the store consistent and the other puzzles' images unchanged; making an image primary leaves it the only primary of its puzzle |
| PuzzleImageRoutes.Lowest | backend/deploy-package/src/routes/puzzleImages.js:133-136 | the lowest id of a non-empty set |
| PuzzleImageRoutes.DeletePuzzleImage | backend/deploy-package/src/routes/puzzleImages.js:113-153 | an unknown id gives 404 and changes nothing; a known id succeeds |
| PuzzleImageRoutes.DeletePuzzleImageKeeps | backend/deploy-package/src/routes/puzzleImages.js:113-153 | only the image table changes; exactly `id` is removed; every other image keeps URL, caption and puzzle; a flag changes only to be set, on the lowest-numbered image left of the deleted primary image's puzzle |
| PuzzleImageRoutes.HandleDeletePuzzleImage | backend/deploy-package/src/routes/puzzleImages.js:113-153 | the handler answers and changes the store as `DeletePuzzleImage` says |
| PuzzleImageRoutes.DeletePuzzleImageConsistent | backend/deploy-package/src/routes/puzzleImages.js:127-144 | deleting keeps the store consistent and removes only that image; other puzzles are untouched; a deleted non-primary image changes no flag; a deleted primary image leaves the puzzle's remaining images with a primary |
| AuthContext.HasWorkspaceRole | frontend/src/context/AuthContext.js:195-206 | defines `hasWorkspaceRole`: false without a user or a current workspace, and a comparison that is false when either role name is missing from the hierarchy table |
| AuthContext.Load | frontend/src/context/AuthContext.js:26-64 | defines the effect of `loadUser` on the session: without a token nothing is fetched; a failed `/me` forgets the token; a successful one takes the user and workspaces and selects the current workspace; loading ends either way |
| AuthContext.Select | frontend/src/context/AuthContext.js:40-55 | defines how a selection is applied: a restored workspace becomes current, a default one becomes current and its id is saved to storage |
| AuthContext.SignIn | frontend/src/context/AuthContext.js:70-127 | defines the session after `register` or `login`: on success the token is stored, the bearer header set, the user and workspaces taken and the first workspace made current and saved; on failure only loading ends |
| AuthContext.SignOut | frontend/src/context/AuthContext.js:130-138 | defines `logout`: the token, the saved workspace id, the bearer header, the user, the list and the current workspace are all cleared |
| AuthContext.SwitchTo | frontend/src/context/AuthContext.js:141-178 | defines `switchWorkspace`: an id or text not in the list is 'Workspace not found'; a missing or zero-id workspace is refused; otherwise it becomes current and its id is saved |
| AuthContext.SyncHeader | frontend/src/context/AuthContext.js:181-187 | defines the header effect: `X-Workspace-ID` carries the current workspace's id while someone is signed in with a current workspace, and is removed otherwise |
| AuthContext.Fresh | frontend/src/context/AuthContext.js:18-23 | a mounted provider has no user, no workspaces, no current workspace and is loading |
| AuthContext.BearerHeader | frontend/src/context/AuthContext.js:9-15 | a bearer header exactly when the token is non-empty |
| AuthContext.HasWorkspaceRoleRanks | frontend/src/context/AuthContext.js:195-206 | with a known current role, the client grants a role exactly when the server's role hierarchy does |
| AuthContext.NoRoleWithout | frontend/src/context/AuthContext.js:195-206 | no role is granted when signed out, without a current workspace, or when either role name is not in the table |
| AuthContext.HasWorkspaceRoleDownward | frontend/src/context/AuthContext.js:198-205 | a granted role grants every role ranked below it |
| AuthContext.FindById | frontend/src/context/AuthContext.js:43 | the first entry with the id, or none when no entry has it |
| AuthContext.SelectWorkspace | frontend/src/context/AuthContext.js:41-55 | an empty list leaves the current workspace; a non-empty saved id that parses to a listed id restores the first such workspace; otherwise the first workspace is taken |
| AuthContext.SavedIdRestores | frontend/src/context/AuthContext.js:41-54 | an id saved with `toString()` restores that very workspace |
| AuthContext.Resolve | frontend/src/context/AuthContext.js:144-156 | a number or string names a listed workspace, and none exactly when no listed id equals `Number(arg)` |
| AuthContext.LoadEnds | frontend/src/context/AuthContext.js:62-63 | loading ends whatever the server answers |
| AuthContext.LoadWithoutToken | frontend/src/context/AuthContext.js:28-30 | without a stored token only the loading flags change |
| AuthContext.LoadFailureForgetsToken | frontend/src/context/AuthContext.js:56-60 | a failed load removes the token and its header and signs nobody in |
| AuthContext.LoadSelects | frontend/src/context/AuthContext.js:30-55 | a successful load takes the user and the list; the current workspace is listed when the list is non-empty, and is the saved one when that is listed; the saved id changes only to the first workspace's id |
| AuthContext.SignInSelectsFirst | frontend/src/context/AuthContext.js:70-127 | a successful sign-in stores the token, takes the user and the list and makes the first workspace current, saving its id |
| AuthContext.SignInFailureKeeps | frontend/src/context/AuthContext.js:92-96 | a failed sign-in changes nothing but the loading flag |
| AuthContext.SignInThenReload | frontend/src/context/AuthContext.js:84-87 | the workspace a sign-in selects is the one the next page load restores |
| AuthContext.SignOutForgets | frontend/src/context/AuthContext.js:130-138 | after logout nobody is signed in, storage is empty, no role is granted, no workspace header is sent and the next load signs nobody in |
| AuthContext.SwitchRejects | frontend/src/context/AuthContext.js:147-163 | an unlisted id, a workspace without a truthy id or no argument leaves the session unchanged, with the matching message |
| AuthContext.SwitchById | frontend/src/context/AuthContext.js:141-173 | switching to a listed id makes it current, saves its id and sends it as the workspace header when signed in; nothing else changes |
| AuthContext.SwitchByObjectUnchecked | frontend/src/context/AuthContext.js:158-165 | a workspace object with a truthy id becomes current without being checked against the list |
| AuthContext.SwitchThenReload | frontend/src/context/AuthContext.js:165-166 | the workspace a switch selects is the one the next page load restores |
| AuthContext.WorkspaceHeaderParses | frontend/src/context/AuthContext.js:181-187 | the workspace header is sent exactly while someone is signed in with a current workspace, and the server's `parseInt` reads it back as that workspace's id |
| AuthContext.AuthProvider.constructor | frontend/src/context/AuthContext.js:18-23 | the provider starts as `Fresh` over local storage, with no headers |
| AuthContext.AuthProvider.LoadUser | frontend/src/context/AuthContext.js:26-64 | the fields change as `Load` says |
| AuthContext.AuthProvider.SelectCurrent | frontend/src/context/AuthContext.js:40-55 | the current workspace and saved id change as `SelectWorkspace` chooses on the saved id |
| AuthContext.AuthProvider.Register | frontend/src/context/AuthContext.js:70-97 | answers whether registration succeeded and changes the fields as `SignIn` says |
| AuthContext.AuthProvider.Login | frontend/src/context/AuthContext.js:100-127 | answers whether login succeeded and changes the fields as `SignIn` says |
| AuthContext.AuthProvider.ApplySignIn | frontend/src/context/AuthContext.js:70-127 | the step sequence shared by register and login computes `SignIn` |
| AuthContext.AuthProvider.Logout | frontend/src/context/AuthContext.js:130-138 | the fields change as `SignOut` says |
| AuthContext.AuthProvider.SwitchWorkspace | frontend/src/context/AuthContext.js:141-178 | the message and the new fields are those of `SwitchTo` |
| AuthContext.AuthProvider.SyncWorkspaceHeader | frontend/src/context/AuthContext.js:181-187 | the workspace header changes as `SyncHeader` says |
| ProtectedRoute.Decide | frontend/src/components/ProtectedRoute.js:7-65 | defines the view a guarded route renders: the spinner while loading, then the login, workspace-selection and unauthorized redirects in the source's order, else the child routes; its lemmas below state the guarantees |
| ProtectedRoute.SpinnerExactlyWhileLoading | frontend/src/components/ProtectedRoute.js:35-42 | the spinner shows exactly while the state is loading or not yet initialized |
| ProtectedRoute.SignedOutGoesToLogin | frontend/src/components/ProtectedRoute.js:44-48 | once loaded, a route requiring authentication sends a signed-out visitor to the login page |
| ProtectedRoute.OutletExactlyWhenAllPass | frontend/src/components/ProtectedRoute.js:7-65 | the child routes render exactly when loading is over and every requested check passes |
| ProtectedRoute.RedirectsInOrder | frontend/src/components/ProtectedRoute.js:50-62 | each redirect is for the first check that fails |
| ProtectedRoute.WorkspacesPageNotRedirected | frontend/src/components/ProtectedRoute.js:50-56 | the workspace selection page never redirects to itself |
| ProtectedRoute.RoleRouteAdmits | frontend/src/components/ProtectedRoute.js:58-65 | a role-guarded route renders only for a signed-in user whose current workspace role satisfies the required role |
| ProtectedRoute.DefaultsNeedOnlySignIn | frontend/src/components/ProtectedRoute.js:7-11 | with the default props, a loaded state renders the child routes exactly when someone is signed in, and otherwise redirects to login |
| ProtectedRoute.AfterLoad | frontend/src/components/ProtectedRoute.js:35-48 | after the first load the spinner is gone, and a refused token sends a visitor to the login page |
| ProtectedRoute.AfterLogout | frontend/src/components/ProtectedRoute.js:44-62 | after logout every route requiring authentication or a role redirects away |

## Left out

- Database I/O, transactions and concurrency: the store is a sequence of in-memory map updates, and atomicity is assumed.
- bcrypt: registration receives the password hash as a `credential` parameter, and login receives the hash comparison as a `matches` parameter.
- JWT signing and Passport: a token is reduced to the claims it carries. Signature checks and the 24-hour expiry are not modelled.
- Randomness: the invitation token from `crypto.randomBytes` is a parameter, required to be 40 lower-case hex characters.
- Clock: the current time is a parameter `now`. The statistics route's calendar arithmetic (`setDate`, `setMonth`, `setFullYear`) is replaced by a given start time `since`.
- Date strings: dates are integer timestamps. An unparsable date is not modelled.
- Email: the nodemailer sending in `backend/src/routes/workspaces.js` is best-effort I/O that never changes the answer, so it is not modelled.
- Logging: `console.log`, `console.error` and the client's toast messages are not modelled. `switchWorkspace` returns its message as a value.
- Search: the store's case-insensitive `contains` filter is a parameter.
- Path ids: the `:id` path parameters of `GameRoutes`, `HintRoutes`, `MaintenanceRoutes`, `PuzzleRoutes` and `ReportRoutes`, the `:gameId` and `:puzzleId` of the report listings, and the `:id` of the `PuzzleImageRoutes` update and delete are integers already parsed. A path id that `Number` or `parseInt` reads as NaN or a fraction is not modelled for these routes. The `:workspaceId` and `:userId` of `WorkspaceRoutes` go through the modelled `parseInt`, and the `:puzzleId` of `PuzzleImageRoutes.ListPuzzleImages` through the modelled `Number`. Workspace ids from the query, the header and the body go through them too.
- Number formats: `Number` and `parseInt` are modelled for integer text only. Fractions and exponents are not modelled. `Js.NumberOf` knows the `0x` prefix but not `0b` or `0o`: it reads `"0b11"` and `"0o7"` as NaN, where `Number` gives 3 and 7.
- Ids: one counter `nextId` numbers the rows of every table. The store keeps a separate sequence per table, so the model's ids differ from the source's. A contract that names a new id ("under the next id") names the shared counter's value. What carries over to the source is that the id is unused and above every id already stored in its table.
- Responses: an answer carries the rows and fields the contracts name. The store's `_count` aggregates and the included related rows (a game's puzzles, a puzzle's images, a report's game and author) are not modelled.
- JSON bodies: `AuthMiddleware.BodyValue` holds a number or a string. Booleans, `null`, arrays and objects in a body id are not modelled.
- The Prisma schema is not part of this model, so its constraints are assumptions:
  - a foreign-key violation or a role string outside the enum makes the store throw, giving a 500;
  - the invitation's role column has no default, so an invitation created without a `role` makes the store throw, giving a 500;
  - the membership's role column has no default either, so inviting an existing account without a `role` makes the store throw, giving a 500;
  - deleting a game cascades to its puzzles, their hints, maintenance records and images, and its reports with their images;
  - deleting a puzzle removes its hints, maintenance records and images, and detaches the reports that named it.
- Row order: the store does not specify the order of rows that tie on an `orderBy` column. The model breaks ties by ascending id.
- PuzzleImageRoutes.Lowest: `take: 1` with no `orderBy` returns some image. The model takes the one with the lowest id.
- ReportStats.InIdOrder: `findMany` in the statistics route names no order. The model walks the reports in ascending id order.
- PuzzleImageRoutes.Creating: `Promise.all` over the `create` calls is modelled as the calls in index order. A call that fails stores nothing, and the others still run.
- Image input: in `PuzzleImageRoutes`, an image URL that is not a string counts as missing. A caption that is not a string is not modelled.
- Image patch: in `PuzzleImageRoutes`, `isPrimary` is a boolean when present. Other truthy values are not modelled.
- Paging: in `ReportRoutes`, a `page` or `limit` that does not parse, a negative skip, or a sort order other than `asc` or `desc` makes the store throw, giving a 500. A limit of 0 answers no rows, and its `totalPages` (`NaN` or `Infinity` in JavaScript) is modelled as absent.
- ListReports: a negative `limit` is answered 500. The store instead reads a negative `take` backwards from the end of the ordering, so the source answers rows: `?limit=-5` on page 1 gives the last five matches. The same holds for `ReportRoutes.ListAllReports`, which answers through `ListReports`.
- Register: `Js.IsEmail` follows validator.js `isEmail` with its default options for unquoted addresses. It does not model quoted local parts, the length limits (64 bytes before the `@`, 254 after it, 63 per label), the rules for Gmail addresses, or the exact Unicode ranges and full-width exclusions. An address that breaks only those rules is accepted. The password length is counted in code points, as `isLength` does. Newer validator.js releases also leave out the variation selectors U+FE0E and U+FE0F, which the model counts.
- Login: email validity is the `Js.IsEmail` of the `Register` line. An address that `isEmail` refuses only by the rules not modelled there is answered 401 rather than 400.
- AddMember: email validity is the `Js.IsEmail` of the `Register` line, with the same gaps.
- CreateReport: the body's `puzzleId` is the number it denotes. A JSON string `"0"` is truthy in the source, so it is looked up and answered 404 'Puzzle not found'. The model treats it like the number 0, which names no puzzle.
- WorkspaceRoutes.Invite: the 'Failed to create invitation' branch, which fires when the store refuses the row, is modelled as a 500 like the other store errors.
- Client user: in `AuthContext`, the user object is reduced to its id. The user's other fields are not modelled.
- Client provider: in `AuthContext.AuthProvider`, server responses are parameters of the methods.
  - The React effect on `[currentWorkspace, user]` is the explicit method `SyncWorkspaceHeader`.
  - The axios default headers start absent.
- `backend/deploy-package/src/routes/uploads.js` is not part of this model. It is multer disk storage and file I/O.
- The frontend pages and components other than `AuthContext.js` and `ProtectedRoute.js` are not part of this model. They are presentation and request plumbing.

## Findings

| source | as written | input that shows it | evidently intended | confidence | as-written member | corrected member |
|---|---|---|---|---|---|---|
| backend/src/routes/workspaces.js:637-641 | accepting an invitation signs `{ user: { id } }`, but the token strategy looks up `userId`. That strategy is the one in backend/deploy-package/src/middleware/auth.js:15-33; backend/src/middleware/auth.js, which workspaces.js:4 imports, is not part of this model. The shipped client (frontend/src/pages/InvitationAccept.js:40-46) discards the returned token and sends the user to the login page, so the defect reaches only a client that uses the token | any accepted invitation: the returned token names no user, so every request with it is refused | sign `{ userId }` as registration and login do, so the new account is signed in | not executed | WorkspaceRoutes.AcceptTokenAsWrittenRejected | WorkspaceRoutes.AcceptTokenAuthenticates |
| backend/src/routes/games.js:77-80 | `GET /games/:id` compares the `X-Workspace-ID` header with the game's workspace instead of checking a membership | a user with no membership sends the game's workspace id as the header and reads the game | check the caller's membership in the game's workspace, as the update, delete and puzzle-list routes do | not executed | GameRoutes.NonMemberReadsGame | GameRoutes.GetGameCheckedOnlyMembers |
