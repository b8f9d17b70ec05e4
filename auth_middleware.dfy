/** The authentication middleware: the bearer-token user check, the
    `X-Workspace-ID` header extractor, and the workspace guard
    `requireWorkspaceAccess(requiredRole)`. */
module AuthMiddleware {
  import opened Outcomes
  import opened Roles
  import opened Js
  import opened Schema
  import Store

  /** The claims a verified bearer token carries. Login and registration sign
      `{ userId }`; accepting an invitation signs `{ user: { id } }`. */
  datatype Claims = UserIdClaim(userId: int) | NestedUserClaim(id: int)

  /** The JWT strategy's verify callback: the user named by `payload.userId`,
      without its password. A token without `userId` makes the lookup itself
      fail, which ends the request with 500. */
  function Authenticate(users: map<int, User>, claims: Claims): (r: Result<PublicUser>)
    ensures r.Ok? <==> claims.UserIdClaim? && claims.userId in users
    ensures r.Ok? ==> r.value == Public(claims.userId, users[claims.userId])
    ensures claims.UserIdClaim? && claims.userId !in users ==> r == Err(Unauthorized("Unauthorized"))
    ensures claims.NestedUserClaim? ==> r == Err(Internal)
  {
    match claims
    case UserIdClaim(u) => if u in users then Ok(Public(u, users[u])) else Err(Unauthorized("Unauthorized"))
    case NestedUserClaim(_) => Err(Internal)
  }

  /** A JSON body value where the guard reads `workspaceId`. */
  datatype BodyValue = BodyNumber(n: int) | BodyString(s: string)

  /** `parseInt(req.params.workspaceId || req.body.workspaceId)`: the route
      parameter when it is a non-empty string, else the body value (a number
      goes through its decimal text). */
  function GuardWorkspaceId(param: Option<string>, body: Option<BodyValue>): JsNum {
    if Present(param) then ParseIntAutoRadix(param.value)
    else match body
      case None => NaN
      case Some(BodyNumber(n)) => ParseIntAutoRadix(IntToString(n))
      case Some(BodyString(t)) => ParseIntAutoRadix(t)
  }

  /** What the guard attaches to the request as `req.workspace`. */
  datatype Grant = Grant(id: int, role: Role)

  /** The decision `requireWorkspaceAccess(required)` takes: 400 for a missing,
      unparsable or zero id, before any lookup; 403 without a membership row;
      403 when the membership's rank is below the required rank; otherwise
      the request carries exactly the id and the membership's role. */
  function GuardDecision(memberships: map<(int, int), Role>, userId: int, param: Option<string>,
                         body: Option<BodyValue>, required: Role): (r: Result<Grant>)
    ensures !Truthy(GuardWorkspaceId(param, body)) ==> r == Err(BadRequest("Workspace ID is required"))
    ensures Truthy(GuardWorkspaceId(param, body)) && (userId, GuardWorkspaceId(param, body).value) !in memberships ==>
      r == Err(Forbidden("You do not have access to this workspace"))
    ensures r.Ok? <==>
      Truthy(GuardWorkspaceId(param, body))
      && (userId, GuardWorkspaceId(param, body).value) in memberships
      && Satisfies(memberships[(userId, GuardWorkspaceId(param, body).value)], required)
    ensures r.Ok? ==>
      && r.value.id == GuardWorkspaceId(param, body).value
      && (userId, r.value.id) in memberships
      && r.value.role == memberships[(userId, r.value.id)]
  {
    var id := GuardWorkspaceId(param, body);
    if !Truthy(id) then Err(BadRequest("Workspace ID is required"))
    else if (userId, id.value) !in memberships then Err(Forbidden("You do not have access to this workspace"))
    else if Rank(memberships[(userId, id.value)]) < Rank(required) then Err(Forbidden("Insufficient permissions"))
    else Ok(Grant(id.value, memberships[(userId, id.value)]))
  }

  /** A numeric body id reaches the guard as itself. */
  lemma BodyNumberIsItself(n: int)
    ensures GuardWorkspaceId(None, Some(BodyNumber(n))) == Num(n)
  {
    ParseIntOfIntToString(n);
  }

  /** A route parameter written from an integer reaches the guard as itself. */
  lemma ParamIsItself(w: int)
    ensures GuardWorkspaceId(Some(IntToString(w)), None) == Num(w)
  {
    ParseIntOfIntToString(w);
  }

  /** With the default requirement (USER) every member of a workspace is
      admitted, with the role its membership row holds. */
  lemma DefaultGuardAdmitsMembers(memberships: map<(int, int), Role>, userId: int, w: int)
    requires w != 0 && (userId, w) in memberships
    ensures GuardDecision(memberships, userId, Some(IntToString(w)), None, Role.User) == Ok(Grant(w, memberships[(userId, w)]))
  {
    ParamIsItself(w);
    assert Satisfies(memberships[(userId, w)], Role.User);
  }

  /** Raising the requirement never admits more: whoever passes a stricter
      guard passes every weaker one, with the same grant. */
  lemma GuardMonotone(memberships: map<(int, int), Role>, userId: int, param: Option<string>,
                      body: Option<BodyValue>, strict: Role, weak: Role)
    requires Satisfies(strict, weak)
    requires GuardDecision(memberships, userId, param, body, strict).Ok?
    ensures GuardDecision(memberships, userId, param, body, weak) == GuardDecision(memberships, userId, param, body, strict)
  {
  }

  /** The per-request state the middleware writes. */
  class Request {
    /** `req.user.id`, set by the JWT strategy. */
    const userId: int
    /** `req.user.currentWorkspaceId`: the header's integer parse, untrusted. */
    var currentWorkspaceId: Option<JsNum>
    /** `req.workspace`, set by the guard on admission. */
    var workspace: Option<Grant>

    constructor (userId: int)
      ensures this.userId == userId && currentWorkspaceId == None && workspace == None
    {
      this.userId := userId;
      currentWorkspaceId := None;
      workspace := None;
    }

    /** `extractWorkspaceId`: a non-empty `x-workspace-id` header becomes the
        current workspace id through `parseInt(header, 10)`; an absent or empty
        header leaves the request as it was. */
    method ExtractWorkspaceId(header: Option<string>)
      modifies this`currentWorkspaceId
      ensures Present(header) ==> currentWorkspaceId == Some(ParseInt(header.value))
      ensures !Present(header) ==> currentWorkspaceId == old(currentWorkspaceId)
    {
      if Present(header) {
        currentWorkspaceId := Some(ParseInt(header.value));
      }
    }

    /** `requireWorkspaceAccess(required)` run on this request against the
        store's membership table; on admission `req.workspace` is set. */
    method RequireWorkspaceAccess(db: Store.Db, param: Option<string>, body: Option<BodyValue>, required: Role)
      returns (r: Result<Grant>)
      modifies this`workspace
      ensures r == GuardDecision(db.tables.memberships, userId, param, body, required)
      ensures r.Ok? ==> workspace == Some(r.value)
      ensures r.Err? ==> workspace == old(workspace)
    {
      var id := GuardWorkspaceId(param, body);
      if !Truthy(id) {
        return Err(BadRequest("Workspace ID is required"));
      }
      var key := (userId, id.value);
      if key !in db.tables.memberships {
        return Err(Forbidden("You do not have access to this workspace"));
      }
      var role := db.tables.memberships[key];
      if Rank(role) < Rank(required) {
        return Err(Forbidden("Insufficient permissions"));
      }
      workspace := Some(Grant(id.value, role));
      r := Ok(Grant(id.value, role));
    }
  }

  /** The id the client puts in `X-Workspace-ID` (its decimal text) reaches
      the request unchanged. */
  lemma {:induction false} HeaderRoundTrip(id: int)
    ensures Present(Some(IntToString(id)))
    ensures ParseInt(IntToString(id)) == Num(id)
  {
    ParseIntOfIntToString(id);
  }
}
