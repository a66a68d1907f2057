/** `RolePolicy`: who may list, see and change roles, and which roles a user's
    queries are narrowed to. The acting user is the authenticated user together
    with its role as loaded from the roles table (absent for a user without one). */
module RolePolicy {
  import opened Wrappers
  import opened Roles
  import opened Users

  /** The user a policy is asked about: its id and its role, if any. */
  datatype Actor = Actor(id: int, role: Option<Role>)

  /** `admin_or_hr?`: `user.admin? || user.hr?`, where a missing role answers nil. */
  predicate AdminOrHr(a: Actor) {
    Truthy(AdminQ(a.role)) || Truthy(HrQ(a.role))
  }

  /** `show?`: elevated users see every role, others only their own. */
  predicate Show(a: Actor, record: Role) {
    AdminOrHr(a) || record.userId == a.id
  }

  /** `update?`: only administrators change roles. */
  predicate Update(a: Actor, record: Role) {
    Truthy(AdminQ(a.role))
  }

  /** `index?`: only administrators and HR list roles. */
  predicate Index(a: Actor) {
    AdminOrHr(a)
  }

  /** `Scope#resolve`: every role for administrators and HR, otherwise the
      rows `where(user_id: user.id)`. */
  function Resolve(a: Actor, rows: seq<Role>): seq<Role> {
    if AdminOrHr(a) then rows else Where(rows, (r: Role) => r.userId == a.id)
  }

  /** Elevation is exactly holding a role named "admin" or "hr". */
  lemma AdminOrHrIff(a: Actor)
    ensures AdminOrHr(a) <==> a.role.Some? && (a.role.value.name == Admin || a.role.value.name == Hr)
  {
  }

  /** A user with no role is treated as an ordinary user: it is neither admin
      nor HR, sees only roles it owns, may not list or change any. */
  lemma NoRoleIsOrdinary(id: int, record: Role)
    ensures !AdminOrHr(Actor(id, None)) && !Index(Actor(id, None)) && !Update(Actor(id, None), record)
    ensures Show(Actor(id, None), record) <==> record.userId == id
  {
  }

  /** `show?` holds iff the actor is an administrator, is HR, or owns the role. */
  lemma ShowIff(a: Actor, record: Role)
    ensures Show(a, record) <==>
      (a.role.Some? && a.role.value.name in [Admin, Hr]) || record.userId == a.id
  {
    AdminOrHrIff(a);
  }

  /** `update?` holds iff the actor's role is "admin", whatever the record. */
  lemma UpdateIff(a: Actor, record: Role)
    ensures Update(a, record) <==> a.role.Some? && a.role.value.name == Admin
  {
  }

  /** Permissions are nested: whoever may update a role may list roles and see it. */
  lemma UpdateImpliesIndexAndShow(a: Actor, record: Role)
    requires Update(a, record)
    ensures Index(a) && Show(a, record)
  {
  }

  /** Managers and employees may not list roles nor change any, and see exactly their own. */
  lemma OrdinaryRolesRestricted(a: Actor, record: Role)
    requires a.role.Some? && a.role.value.name in [Manager, Employee]
    ensures !Index(a) && !Update(a, record)
    ensures Show(a, record) <==> record.userId == a.id
  {
  }

  /** The scope keeps exactly the rows the actor may see, in table order, and
      drops nothing an elevated actor may see. */
  lemma ResolveIsShowFilter(a: Actor, rows: seq<Role>)
    ensures forall r :: r in Resolve(a, rows) <==> r in rows && Show(a, r)
    ensures AdminOrHr(a) ==> Resolve(a, rows) == rows
    ensures |Resolve(a, rows)| <= |rows|
  {
  }

  /** For an ordinary user, when no user owns two roles, the scope is that
      user's own role, or nothing. */
  lemma {:induction false} ResolveOwnRole(a: Actor, rows: seq<Role>)
    requires !AdminOrHr(a)
    requires OneRolePerUser(rows)
    ensures |Resolve(a, rows)| <= 1
    ensures forall r :: r in Resolve(a, rows) ==> r.userId == a.id
  {
    if rows != [] {
      assert OneRolePerUser(rows[1..]) by {
        forall i, j | 0 <= i < j < |rows[1..]| ensures rows[1..][i].userId != rows[1..][j].userId {
          assert rows[1..][i] == rows[i + 1] && rows[1..][j] == rows[j + 1];
        }
      }
      ResolveOwnRole(a, rows[1..]);
      var tail := Resolve(a, rows[1..]);
      assert rows == [rows[0]] + rows[1..];
      if rows[0].userId == a.id {
        assert forall r :: r in rows[1..] ==> r.userId != a.id by {
          forall r | r in rows[1..] ensures r.userId != a.id {
            var k :| 0 <= k < |rows[1..]| && rows[1..][k] == r;
            assert rows[k + 1] == r;
          }
        }
        assert tail == [];
      }
    }
  }

  /** Whoever passes `index?` gets every row from the scope: in the listing
      action the scope never narrows anything. */
  lemma IndexSeesAll(a: Actor, rows: seq<Role>)
    requires Index(a)
    ensures Resolve(a, rows) == rows
  {
  }
}
