/** Workspace roles and the rank comparison shared by the guard, the
    membership routes and the client. */
module Roles {
  import opened Outcomes

  datatype Role = User | Admin | SuperAdmin

  /** The `roleHierarchy` table: USER 1, ADMIN 2, SUPER_ADMIN 3. */
  function Rank(r: Role): nat {
    match r
    case User => 1
    case Admin => 2
    case SuperAdmin => 3
  }

  /** `roleHierarchy[actual] >= roleHierarchy[required]`. */
  predicate Satisfies(actual: Role, required: Role) {
    Rank(actual) >= Rank(required)
  }

  /** `['ADMIN', 'SUPER_ADMIN'].includes(role)`, the check the membership
      routes write out by hand. */
  predicate IsAdminRole(r: Role) {
    r == Admin || r == SuperAdmin
  }

  function Name(r: Role): string {
    match r
    case User => "USER"
    case Admin => "ADMIN"
    case SuperAdmin => "SUPER_ADMIN"
  }

  /** The role a stored role string denotes, if any. */
  function ParseRole(s: string): (r: Option<Role>)
    ensures r.Some? <==> s == "USER" || s == "ADMIN" || s == "SUPER_ADMIN"
    ensures r.Some? ==> Name(r.value) == s
  {
    if s == "USER" then Some(User)
    else if s == "ADMIN" then Some(Admin)
    else if s == "SUPER_ADMIN" then Some(SuperAdmin)
    else None
  }

  lemma ParseName(r: Role)
    ensures ParseRole(Name(r)) == Some(r)
  {
  }

  /** Satisfies is a total order: reflexive, antisymmetric, transitive, total. */
  lemma SatisfiesIsTotalOrder(a: Role, b: Role, c: Role)
    ensures Satisfies(a, a)
    ensures Satisfies(a, b) && Satisfies(b, a) ==> a == b
    ensures Satisfies(a, b) && Satisfies(b, c) ==> Satisfies(a, c)
    ensures Satisfies(a, b) || Satisfies(b, a)
  {
  }

  /** SUPER_ADMIN passes every check; USER passes only the USER check. */
  lemma RankExtremes(r: Role)
    ensures Satisfies(SuperAdmin, r)
    ensures Satisfies(r, User)
    ensures Satisfies(User, r) <==> r == User
  {
  }

  /** The hand-written admin test of the membership routes is the guard's
      comparison at ADMIN. */
  lemma AdminTestIsRankTest(r: Role)
    ensures IsAdminRole(r) <==> Satisfies(r, Admin)
  {
  }
}
