/** The `Role` record: one of four fixed names, owned by one user, at most one
    per user. */
module Roles {
  import opened Text

  const Admin: string := "admin"
  const Hr: string := "hr"
  const Manager: string := "manager"
  const Employee: string := "employee"

  /** `Role::VALID_ROLES`, in the order the application lists them. */
  const ValidRoles: seq<string> := [Admin, Hr, Manager, Employee]

  /** A row of the roles table: its id, its name and the id of the user owning it. */
  datatype Role = Role(id: int, name: string, userId: int)

  predicate IsAdmin(r: Role) {
    r.name == Admin
  }

  predicate IsHr(r: Role) {
    r.name == Hr
  }

  predicate IsManager(r: Role) {
    r.name == Manager
  }

  predicate IsEmployee(r: Role) {
    r.name == Employee
  }

  /** A role whose name is valid satisfies exactly one of the four predicates;
      a role with any other name satisfies none. */
  lemma ExactlyOneKind(r: Role)
    ensures (IsAdmin(r) || IsHr(r) || IsManager(r) || IsEmployee(r)) <==> r.name in ValidRoles
    ensures IsAdmin(r) ==> !IsHr(r) && !IsManager(r) && !IsEmployee(r)
    ensures IsHr(r) ==> !IsManager(r) && !IsEmployee(r)
    ensures IsManager(r) ==> !IsEmployee(r)
  {
  }

  // ----------------------------------------------------------------- scopes

  /** `where` over a relation of roles: the rows satisfying `p`, in their order. */
  function Where(rows: seq<Role>, p: Role -> bool): (r: seq<Role>)
    ensures |r| <= |rows|
    ensures forall x :: x in r <==> x in rows && p(x)
    ensures forall x :: multiset(r)[x] == if p(x) then multiset(rows)[x] else 0
  {
    if rows == [] then
      []
    else
      var tail := Where(rows[1..], p);
      assert rows == [rows[0]] + rows[1..];
      if p(rows[0]) then [rows[0]] + tail else tail
  }

  /** Filtering a relation made of two parts filters each part and keeps them in
      that order: `where` never reorders rows. */
  lemma {:induction false} WhereConcat(a: seq<Role>, b: seq<Role>, p: Role -> bool)
    ensures Where(a + b, p) == Where(a, p) + Where(b, p)
  {
    if a == [] {
      assert a + b == b;
    } else {
      var ab := a + b;
      assert ab[0] == a[0] && ab[1..] == a[1..] + b;
      WhereConcat(a[1..], b, p);
      var rest := Where(a[1..], p);
      if p(a[0]) {
        calc {
          Where(ab, p);
          [a[0]] + Where(a[1..] + b, p);
          [a[0]] + (rest + Where(b, p));
          ([a[0]] + rest) + Where(b, p);
          Where(a, p) + Where(b, p);
        }
      }
    }
  }

  /** A single row is kept iff it satisfies the condition. */
  lemma WhereSingleton(x: Role, p: Role -> bool)
    ensures Where([x], p) == if p(x) then [x] else []
  {
    assert [x][1..] == [];
  }

  /** The scope `admins`: `where(name: ADMIN)`. */
  function Admins(rows: seq<Role>): seq<Role> {
    Where(rows, IsAdmin)
  }

  function Hrs(rows: seq<Role>): seq<Role> {
    Where(rows, IsHr)
  }

  function Managers(rows: seq<Role>): seq<Role> {
    Where(rows, IsManager)
  }

  function Employees(rows: seq<Role>): seq<Role> {
    Where(rows, IsEmployee)
  }

  predicate AllNamesValid(rows: seq<Role>) {
    forall r :: r in rows ==> r.name in ValidRoles
  }

  /** Each name scope holds exactly the rows with that name, so it is part of its input. */
  lemma NameScopesExact(rows: seq<Role>, r: Role)
    ensures r in Admins(rows) <==> r in rows && r.name == Admin
    ensures r in Hrs(rows) <==> r in rows && r.name == Hr
    ensures r in Managers(rows) <==> r in rows && r.name == Manager
    ensures r in Employees(rows) <==> r in rows && r.name == Employee
  {
  }

  /** Over rows with valid names, the four scopes partition the rows: their sizes add up. */
  lemma {:induction false} ScopeCountsSum(rows: seq<Role>)
    requires AllNamesValid(rows)
    ensures |Admins(rows)| + |Hrs(rows)| + |Managers(rows)| + |Employees(rows)| == |rows|
  {
    if rows != [] {
      assert forall r :: r in rows[1..] ==> r in rows;
      ScopeCountsSum(rows[1..]);
      ExactlyOneKind(rows[0]);
    }
  }

  // ------------------------------------------------------------- validation

  /** The validation errors a role can carry. */
  datatype RoleError =
    | UserMustExist   // `belongs_to :user` requires the owner to exist
    | NameBlank       // `presence: true` on name
    | NameNotIncluded // `inclusion: { in: VALID_ROLES }` on name
    | UserIdTaken     // `uniqueness` on user_id: "já possui um role atribuído"

  /** The errors of the two validations on `name`. */
  function NameErrors(name: string): (errs: seq<RoleError>)
    ensures errs == [] <==> name in ValidRoles
  {
    assert name in ValidRoles ==> name != [] && !IsBlankSpace(name[0]);
    (if Blank(name) then [NameBlank] else [])
    + (if name !in ValidRoles then [NameNotIncluded] else [])
  }

  /** Another row already belongs to the role's user. */
  predicate UserIdTakenIn(rows: seq<Role>, r: Role) {
    exists x :: x in rows && x.userId == r.userId && x.id != r.id
  }

  /** All validations of a role against the current table, in declaration order.
      A role not yet saved carries the id it will get, which no row has. */
  function Validate(rows: seq<Role>, ownerExists: bool, r: Role): seq<RoleError> {
    (if ownerExists then [] else [UserMustExist])
    + NameErrors(r.name)
    + (if UserIdTakenIn(rows, r) then [UserIdTaken] else [])
  }

  /** A role is valid iff its owner exists, its name is one of the four and no
      other row belongs to the same user. */
  lemma ValidateIff(rows: seq<Role>, ownerExists: bool, r: Role)
    ensures Validate(rows, ownerExists, r) == [] <==>
      ownerExists && r.name in ValidRoles && !UserIdTakenIn(rows, r)
  {
  }

  /** The unique index on `roles.user_id`: no two rows belong to one user. */
  predicate OneRolePerUser(rows: seq<Role>) {
    forall i, j :: 0 <= i < j < |rows| ==> rows[i].userId != rows[j].userId
  }

  /** A second role for a user who already has one is rejected with `UserIdTaken`. */
  lemma SecondRoleRejected(rows: seq<Role>, ownerExists: bool, existing: Role, r: Role)
    requires existing in rows && existing.userId == r.userId && existing.id != r.id
    ensures UserIdTaken in Validate(rows, ownerExists, r)
  {
  }

  /** Inserting a role that passed validation keeps one role per user. */
  lemma InsertKeepsOneRolePerUser(rows: seq<Role>, r: Role)
    requires OneRolePerUser(rows)
    requires forall x :: x in rows ==> x.id != r.id
    requires Validate(rows, true, r) == []
    ensures OneRolePerUser(rows + [r])
  {
    forall i, j | 0 <= i < j < |rows + [r]|
      ensures (rows + [r])[i].userId != (rows + [r])[j].userId
    {
      if j == |rows| {
        assert rows[i] in rows;
      }
    }
  }
}
