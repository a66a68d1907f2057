/** The two tables the core reads and writes, held in memory: `users` and
    `roles`, with the id sequences the database would assign. Saving a user runs
    its validations, `before_save :normalize_email` and
    `after_create :assign_default_role`; updating a role runs the role's validations. */
module Store {
  import opened Wrappers
  import opened Text
  import opened Users
  import Roles

  /** `user.role` (`has_one`): the role whose `user_id` is the user's id. */
  function RoleOf(roles: seq<Roles.Role>, userId: int): (r: Option<Roles.Role>)
    ensures r.Some? ==> r.value in roles && r.value.userId == userId
    ensures r.None? <==> forall x :: x in roles ==> x.userId != userId
  {
    First(roles, (x: Roles.Role) => x.userId, userId)
  }

  /** `Role.find(id)`: the role with that id, None where Rails raises RecordNotFound. */
  function FindRole(roles: seq<Roles.Role>, id: int): (r: Option<Roles.Role>)
    ensures r.Some? ==> r.value in roles && r.value.id == id
    ensures r.None? <==> forall x :: x in roles ==> x.id != id
  {
    First(roles, (x: Roles.Role) => x.id, id)
  }

  /** The table after `UPDATE roles SET ... WHERE id = r.id`. */
  function ReplaceRow(rows: seq<Roles.Role>, r: Roles.Role): (t: seq<Roles.Role>)
    ensures |t| == |rows|
    ensures forall i :: 0 <= i < |t| ==> t[i] == if rows[i].id == r.id then r else rows[i]
  {
    seq(|rows|, i requires 0 <= i < |rows| => if rows[i].id == r.id then r else rows[i])
  }

  function UserIds(users: seq<User>): set<int> {
    set u | u in users :: u.id
  }

  /** The ids of the users owning a role. */
  function Owners(roles: seq<Roles.Role>): set<int> {
    set r | r in roles :: r.userId
  }

  /** The users table: ids distinct and below the next id to assign, emails
      unique up to case (as many lowered emails as users). */
  predicate UsersSound(users: seq<User>, nextUserId: int) {
    && (forall i, j :: 0 <= i < j < |users| ==> users[i].id != users[j].id)
    && (forall u :: u in users ==> u.id < nextUserId)
    && |EmailKeys(users)| == |users|
  }

  /** The roles table: ids distinct and below the next id to assign, names
      valid, at most one role per user. */
  predicate RolesSound(roles: seq<Roles.Role>, nextRoleId: int) {
    && (forall i, j :: 0 <= i < j < |roles| ==> roles[i].id != roles[j].id)
    && (forall r :: r in roles ==> r.id < nextRoleId)
    && Roles.OneRolePerUser(roles) && Roles.AllNamesValid(roles)
  }

  /** Everything the tables promise except that every user has a role; the
      owner of every role exists (`belongs_to :user`). */
  predicate TablesSound(users: seq<User>, roles: seq<Roles.Role>, nextUserId: int, nextRoleId: int) {
    UsersSound(users, nextUserId) && RolesSound(roles, nextRoleId) && Owners(roles) <= UserIds(users)
  }

  /** Every user has a role: what `after_create :assign_default_role` maintains. */
  predicate Consistent(users: seq<User>, roles: seq<Roles.Role>, nextUserId: int, nextRoleId: int) {
    TablesSound(users, roles, nextUserId, nextRoleId) && UserIds(users) <= Owners(roles)
  }

  lemma RoleOfOwners(roles: seq<Roles.Role>, userId: int)
    ensures RoleOf(roles, userId).Some? <==> userId in Owners(roles)
  {
    if userId in Owners(roles) {
      var x :| x in roles && x.userId == userId;
    }
  }

  lemma FindByIdUserIds(users: seq<User>, id: int)
    ensures FindById(users, id).Some? <==> id in UserIds(users)
  {
    if id in UserIds(users) {
      var x :| x in users && x.id == id;
    }
  }

  /** Storing a new user under the next id, with a normalised email no stored
      email equals up to case, keeps the users table sound. */
  lemma AppendUser(users: seq<User>, nextUserId: int, u: User)
    requires UsersSound(users, nextUserId)
    requires u.id == nextUserId
    requires Downcase(u.email) !in EmailKeys(users)
    ensures UsersSound(users + [u], nextUserId + 1)
    ensures UserIds(users + [u]) == UserIds(users) + {u.id}
  {
    var t := users + [u];
    assert forall v :: v in t ==> v in users || v == u;
    forall i, j | 0 <= i < j < |t| ensures t[i].id != t[j].id {
      if j == |users| {
        assert t[i] in users;
      }
    }
    assert forall v :: v in users ==> v in t;
    assert UserIds(t) == UserIds(users) + {u.id};
    assert EmailKeys(t) == EmailKeys(users) + {Downcase(u.email)};
  }

  /** Storing a new role under the next id, with a valid name, for an existing
      user without a role, keeps the tables sound and gives the user a role. */
  lemma AppendRole(users: seq<User>, roles: seq<Roles.Role>, nextUserId: int, nextRoleId: int, r: Roles.Role)
    requires TablesSound(users, roles, nextUserId, nextRoleId)
    requires r.id == nextRoleId && r.name in Roles.ValidRoles
    requires r.userId in UserIds(users) && r.userId !in Owners(roles)
    ensures TablesSound(users, roles + [r], nextUserId, nextRoleId + 1)
    ensures Owners(roles + [r]) == Owners(roles) + {r.userId}
  {
    var t := roles + [r];
    forall i, j | 0 <= i < j < |t| ensures t[i].id != t[j].id && t[i].userId != t[j].userId {
      if j == |roles| {
        assert t[i] in roles;
      }
    }
  }

  /** Rewriting one role in place, keeping its id and owner and giving it a
      valid name, keeps the tables sound and the owners unchanged. */
  lemma ReplaceRole(users: seq<User>, roles: seq<Roles.Role>, nextUserId: int, nextRoleId: int, k: nat, r: Roles.Role)
    requires TablesSound(users, roles, nextUserId, nextRoleId)
    requires k < |roles| && roles[k].id == r.id && roles[k].userId == r.userId && r.name in Roles.ValidRoles
    ensures TablesSound(users, ReplaceRow(roles, r), nextUserId, nextRoleId)
    ensures Owners(ReplaceRow(roles, r)) == Owners(roles)
  {
    var t := ReplaceRow(roles, r);
    assert forall i :: 0 <= i < |t| ==> t[i].id == roles[i].id && t[i].userId == roles[i].userId by {
      forall i | 0 <= i < |t| ensures t[i].id == roles[i].id && t[i].userId == roles[i].userId {
        assert roles[i].id == r.id ==> i == k;
      }
    }
    forall x | x in t ensures x.name in Roles.ValidRoles && x.id < nextRoleId {
      var i :| 0 <= i < |t| && t[i] == x;
      assert roles[i] in roles;
    }
    SameOwners(roles, t);
  }

  /** Two tables whose rows have, position by position, the same owners have the same owners. */
  lemma SameOwners(roles: seq<Roles.Role>, t: seq<Roles.Role>)
    requires |t| == |roles| && forall i :: 0 <= i < |t| ==> t[i].userId == roles[i].userId
    ensures Owners(t) == Owners(roles)
  {
    forall o | o in Owners(roles) ensures o in Owners(t) {
      var x :| x in roles && x.userId == o;
      var i :| 0 <= i < |roles| && roles[i] == x;
      assert t[i] in t;
    }
    forall o | o in Owners(t) ensures o in Owners(roles) {
      var x :| x in t && x.userId == o;
      var i :| 0 <= i < |t| && t[i] == x;
      assert roles[i] in roles;
    }
  }

  lemma {:induction false} UserIdsCard(users: seq<User>)
    requires forall i, j :: 0 <= i < j < |users| ==> users[i].id != users[j].id
    ensures |UserIds(users)| == |users|
  {
    if users != [] {
      UserIdsCard(users[1..]);
      assert UserIds(users) == {users[0].id} + UserIds(users[1..]);
      assert users[0].id !in UserIds(users[1..]);
    }
  }

  lemma {:induction false} OwnersCard(roles: seq<Roles.Role>)
    requires Roles.OneRolePerUser(roles)
    ensures |Owners(roles)| == |roles|
  {
    if roles != [] {
      assert Roles.OneRolePerUser(roles[1..]) by {
        forall i, j | 0 <= i < j < |roles[1..]| ensures roles[1..][i].userId != roles[1..][j].userId {
          assert roles[1..][i] == roles[i + 1] && roles[1..][j] == roles[j + 1];
        }
      }
      OwnersCard(roles[1..]);
      assert Owners(roles) == {roles[0].userId} + Owners(roles[1..]);
      assert roles[0].userId !in Owners(roles[1..]);
    }
  }

  /** In consistent tables, roles and users are in one-to-one correspondence:
      there are exactly as many roles as users. */
  lemma RolesMatchUsers(users: seq<User>, roles: seq<Roles.Role>, nextUserId: int, nextRoleId: int)
    requires Consistent(users, roles, nextUserId, nextRoleId)
    ensures |roles| == |users|
  {
    UserIdsCard(users);
    OwnersCard(roles);
    assert UserIds(users) == Owners(roles);
  }

  /** The default role for a user without one passes the role's validations
      (`create_role` succeeds), and storing it makes the tables consistent when
      that user was the only one without a role. */
  lemma DefaultRoleCompletes(users: seq<User>, roles: seq<Roles.Role>, nextUserId: int, nextRoleId: int, userId: int)
    requires TablesSound(users, roles, nextUserId, nextRoleId)
    requires userId in UserIds(users) && userId !in Owners(roles)
    requires UserIds(users) - {userId} <= Owners(roles)
    ensures Roles.Validate(roles, FindById(users, userId).Some?, Roles.Role(nextRoleId, Roles.Employee, userId)) == []
    ensures Consistent(users, roles + [Roles.Role(nextRoleId, Roles.Employee, userId)], nextUserId, nextRoleId + 1)
  {
    var r := Roles.Role(nextRoleId, Roles.Employee, userId);
    FindByIdUserIds(users, userId);
    assert !Roles.UserIdTakenIn(roles, r);
    AppendRole(users, roles, nextUserId, nextRoleId, r);
  }

  /** A draft that passed validation, stored under the next user id with its
      email normalised, keeps the tables sound; the new user is the only one
      still without a role. */
  lemma NewUserStored(users: seq<User>, roles: seq<Roles.Role>, nextUserId: int, nextRoleId: int, u: User)
    requires Consistent(users, roles, nextUserId, nextRoleId)
    requires u.id == nextUserId
    requires Downcase(u.email) !in EmailKeys(users)
    ensures TablesSound(users + [u], roles, nextUserId + 1, nextRoleId)
    ensures u.id in UserIds(users + [u]) && u.id !in Owners(roles)
    ensures UserIds(users + [u]) - {u.id} <= Owners(roles)
    ensures RoleOf(roles, u.id).None?
  {
    assert u.id !in Owners(roles);
    RoleOfOwners(roles, u.id);
    AppendUser(users, nextUserId, u);
  }

  // ---------------------------------------------------------------- destroy

  /** The users table after `DELETE FROM users WHERE id = id`. */
  function WithoutUser(users: seq<User>, id: int): (t: seq<User>)
    ensures |t| <= |users|
    ensures forall u :: u in t <==> u in users && u.id != id
  {
    if users == [] then []
    else if users[0].id == id then WithoutUser(users[1..], id)
    else [users[0]] + WithoutUser(users[1..], id)
  }

  /** The roles table after the dependent role of user `id` is destroyed; with
      one role per user that is the single row `user.role` names. */
  function WithoutRoleOf(roles: seq<Roles.Role>, id: int): (t: seq<Roles.Role>)
    ensures |t| <= |roles|
    ensures forall r :: r in t <==> r in roles && r.userId != id
  {
    if roles == [] then []
    else if roles[0].userId == id then WithoutRoleOf(roles[1..], id)
    else [roles[0]] + WithoutRoleOf(roles[1..], id)
  }

  lemma {:induction false} EmailKeysBound(users: seq<User>)
    ensures |EmailKeys(users)| <= |users|
  {
    if users != [] {
      EmailKeysBound(users[1..]);
      assert EmailKeys(users) == {Downcase(users[0].email)} + EmailKeys(users[1..]);
    }
  }

  /** The rows after the first of a sound users table form a sound table that
      shares neither id nor lowered email with the first row. */
  lemma UsersSoundTail(users: seq<User>, nextUserId: int)
    requires UsersSound(users, nextUserId) && users != []
    ensures UsersSound(users[1..], nextUserId)
    ensures forall u :: u in users[1..] ==> u.id != users[0].id
    ensures Downcase(users[0].email) !in EmailKeys(users[1..])
  {
    var t := users[1..];
    forall u | u in t ensures u.id != users[0].id {
      var j :| 0 <= j < |t| && t[j] == u;
      assert users[j + 1] == u;
    }
    assert EmailKeys(users) == {Downcase(users[0].email)} + EmailKeys(t);
    EmailKeysBound(t);
  }

  /** Putting a row in front of a sound users table keeps it sound when the row's
      id and lowered email are new. */
  lemma UsersSoundCons(u: User, t: seq<User>, nextUserId: int)
    requires UsersSound(t, nextUserId) && u.id < nextUserId
    requires forall v :: v in t ==> v.id != u.id
    requires Downcase(u.email) !in EmailKeys(t)
    ensures UsersSound([u] + t, nextUserId)
  {
    ConsIdsDistinct(u, t);
    ConsEmailKeys(u, t);
  }

  lemma ConsIdsDistinct(u: User, t: seq<User>)
    requires forall i, j :: 0 <= i < j < |t| ==> t[i].id != t[j].id
    requires forall v :: v in t ==> v.id != u.id
    ensures var s := [u] + t; forall i, j :: 0 <= i < j < |s| ==> s[i].id != s[j].id
  {
    var s := [u] + t;
    forall i, j | 0 <= i < j < |s| ensures s[i].id != s[j].id {
      assert s[j] == t[j - 1];
      if i > 0 {
        assert s[i] == t[i - 1];
      } else {
        assert t[j - 1] in t;
      }
    }
  }

  lemma ConsEmailKeys(u: User, t: seq<User>)
    ensures EmailKeys([u] + t) == {Downcase(u.email)} + EmailKeys(t)
  {
    var s := [u] + t;
    assert forall v :: v in s <==> v == u || v in t;
  }

  /** Deleting the rows of one id keeps a users table sound. */
  lemma {:induction false} WithoutUserSound(users: seq<User>, nextUserId: int, id: int)
    requires UsersSound(users, nextUserId)
    ensures UsersSound(WithoutUser(users, id), nextUserId)
  {
    if users != [] {
      UsersSoundTail(users, nextUserId);
      WithoutUserSound(users[1..], nextUserId, id);
      if users[0].id != id {
        UsersSoundCons(users[0], WithoutUser(users[1..], id), nextUserId);
      }
    }
  }

  /** The rows after the first of a sound roles table form a sound table that
      shares neither id nor owner with the first row. */
  lemma RolesSoundTail(roles: seq<Roles.Role>, nextRoleId: int)
    requires RolesSound(roles, nextRoleId) && roles != []
    ensures RolesSound(roles[1..], nextRoleId)
    ensures forall r :: r in roles[1..] ==> r.id != roles[0].id && r.userId != roles[0].userId
  {
    var t := roles[1..];
    forall i, j | 0 <= i < j < |t| ensures t[i].id != t[j].id && t[i].userId != t[j].userId {
      assert t[i] == roles[i + 1] && t[j] == roles[j + 1];
    }
    forall r | r in t ensures r.id != roles[0].id && r.userId != roles[0].userId {
      var j :| 0 <= j < |t| && t[j] == r;
      assert roles[j + 1] == r;
    }
  }

  /** Putting a row in front of a sound roles table keeps it sound when the
      row's id and owner are new and its name is valid. */
  lemma RolesSoundCons(r: Roles.Role, t: seq<Roles.Role>, nextRoleId: int)
    requires RolesSound(t, nextRoleId) && r.id < nextRoleId && r.name in Roles.ValidRoles
    requires forall x :: x in t ==> x.id != r.id && x.userId != r.userId
    ensures RolesSound([r] + t, nextRoleId)
  {
    var s := [r] + t;
    forall i, j | 0 <= i < j < |s| ensures s[i].id != s[j].id && s[i].userId != s[j].userId {
      assert s[j] == t[j - 1];
      if i > 0 {
        assert s[i] == t[i - 1];
      } else {
        assert t[j - 1] in t;
      }
    }
  }

  /** Deleting the roles of one user keeps a roles table sound. */
  lemma {:induction false} WithoutRoleSound(roles: seq<Roles.Role>, nextRoleId: int, id: int)
    requires RolesSound(roles, nextRoleId)
    ensures RolesSound(WithoutRoleOf(roles, id), nextRoleId)
  {
    if roles != [] {
      RolesSoundTail(roles, nextRoleId);
      WithoutRoleSound(roles[1..], nextRoleId, id);
      if roles[0].userId != id {
        RolesSoundCons(roles[0], WithoutRoleOf(roles[1..], id), nextRoleId);
      }
    }
  }

  /** Destroying a user together with its dependent role keeps the tables
      consistent: what remains are the other users and their roles. */
  lemma DestroyKeepsConsistent(users: seq<User>, roles: seq<Roles.Role>, nextUserId: int, nextRoleId: int, id: int)
    requires Consistent(users, roles, nextUserId, nextRoleId)
    ensures Consistent(WithoutUser(users, id), WithoutRoleOf(roles, id), nextUserId, nextRoleId)
    ensures UserIds(WithoutUser(users, id)) == UserIds(users) - {id}
    ensures Owners(WithoutRoleOf(roles, id)) == Owners(roles) - {id}
  {
    var us := WithoutUser(users, id);
    var rs := WithoutRoleOf(roles, id);
    WithoutUserSound(users, nextUserId, id);
    WithoutRoleSound(roles, nextRoleId, id);
    assert UserIds(us) == UserIds(users) - {id};
    assert Owners(rs) == Owners(roles) - {id} by {
      forall o | o in Owners(roles) - {id} ensures o in Owners(rs) {
        var x :| x in roles && x.userId == o;
        assert x in rs;
      }
    }
  }

  class Database {
    var users: seq<User>
    var roles: seq<Roles.Role>
    var nextUserId: int
    var nextRoleId: int

    ghost predicate Valid()
      reads this
    {
      Consistent(users, roles, nextUserId, nextRoleId)
    }

    /** The whole state: both tables and both id sequences. */
    function Tables(): (seq<User>, seq<Roles.Role>, int, int)
      reads this
    {
      (users, roles, nextUserId, nextRoleId)
    }

    /** Empty tables; ids start at 1. */
    constructor()
      ensures Valid()
      ensures users == [] && roles == [] && nextUserId == 1 && nextRoleId == 1
    {
      users := [];
      roles := [];
      nextUserId := 1;
      nextRoleId := 1;
    }

    /** `assign_default_role`: give the user an "employee" role unless it has a
        role already. The role's own validations pass: its owner exists, its name
        is valid and no other row belongs to the user. */
    method AssignDefaultRole(userId: int)
      requires TablesSound(users, roles, nextUserId, nextRoleId)
      requires userId in UserIds(users) && UserIds(users) - {userId} <= Owners(roles)
      modifies this
      ensures Valid()
      ensures users == old(users) && nextUserId == old(nextUserId)
      ensures old(RoleOf(roles, userId)).Some? ==> roles == old(roles) && nextRoleId == old(nextRoleId)
      ensures old(RoleOf(roles, userId)).None? ==>
        && roles == old(roles) + [Roles.Role(old(nextRoleId), Roles.Employee, userId)]
        && nextRoleId == old(nextRoleId) + 1
    {
      RoleOfOwners(roles, userId);
      if RoleOf(roles, userId).Some? {
        return;
      }
      DefaultRoleCompletes(users, roles, nextUserId, nextRoleId, userId);
      roles := roles + [Roles.Role(nextRoleId, Roles.Employee, userId)];
      nextRoleId := nextRoleId + 1;
    }

    /** The insert `user.save` performs once validation passed: store the user
        with its email normalised under the next id (`before_save`), then give it
        the default role (`after_create`). */
    method Insert(d: Draft) returns (u: User)
      requires Valid()
      requires d.digest.Some? && Downcase(NormalizeEmail(d.email)) !in EmailKeys(users)
      modifies this
      ensures Valid()
      ensures u == User(old(nextUserId), d.name, NormalizeEmail(d.email), d.digest.value)
      ensures users == old(users) + [u] && nextUserId == old(nextUserId) + 1
      ensures roles == old(roles) + [Roles.Role(old(nextRoleId), Roles.Employee, u.id)]
      ensures nextRoleId == old(nextRoleId) + 1
    {
      u := User(nextUserId, d.name, NormalizeEmail(d.email), d.digest.value);
      NewUserStored(users, roles, nextUserId, nextRoleId, u);
      users := users + [u];
      nextUserId := nextUserId + 1;
      AssignDefaultRole(u.id);
    }

    /** `user.save` on a new user: run the validations and, if they pass,
        insert. On failure nothing is written. */
    method Save(d: Draft) returns (r: Result<User, seq<UserError>>)
      requires Valid()
      modifies this
      ensures Valid()
      ensures r.Failure? <==> ErrorsAsWritten(old(users), d) != []
      ensures r.Failure? ==> (
        && r.error == ErrorsAsWritten(old(users), d)
        && users == old(users) && roles == old(roles)
        && nextUserId == old(nextUserId) && nextRoleId == old(nextRoleId))
      ensures r.Success? ==> (
        && r.value == User(old(nextUserId), d.name, NormalizeEmail(d.email), r.value.digest)
        && d.digest == Some(r.value.digest)
        && users == old(users) + [r.value]
        && roles == old(roles) + [Roles.Role(old(nextRoleId), Roles.Employee, r.value.id)]
        && nextUserId == old(nextUserId) + 1 && nextRoleId == old(nextRoleId) + 1)
    {
      var errs := ErrorsAsWritten(users, d);
      if errs != [] {
        return Failure(errs);
      }
      ValidDraft(users, d);
      StoredEmailFresh(users, d.email);
      var u := Insert(d);
      return Success(u);
    }

    /** `role.update(name: ...)` on an existing role: assign the name if one was
        given, run the role's validations, and write the row only if they pass. */
    method UpdateRole(id: int, name: Option<string>) returns (updated: Roles.Role, errs: seq<Roles.RoleError>)
      requires Valid()
      requires FindRole(roles, id).Some?
      modifies this
      ensures Valid()
      ensures updated == (var r := old(FindRole(roles, id)).value; if name.Some? then r.(name := name.value) else r)
      ensures errs == Roles.Validate(old(roles), true, updated)
      ensures errs == [] <==> updated.name in Roles.ValidRoles
      ensures errs == [] ==> roles == ReplaceRow(old(roles), updated)
      ensures errs != [] ==> roles == old(roles)
      ensures users == old(users) && nextUserId == old(nextUserId) && nextRoleId == old(nextRoleId)
    {
      var current := FindRole(roles, id).value;
      updated := if name.Some? then current.(name := name.value) else current;
      var k :| 0 <= k < |roles| && roles[k] == current;
      assert !Roles.UserIdTakenIn(roles, updated) by {
        forall x | x in roles && x.userId == updated.userId ensures x.id == updated.id {
          var i :| 0 <= i < |roles| && roles[i] == x;
          assert i == k;
        }
      }
      errs := Roles.Validate(roles, true, updated);
      Roles.ValidateIff(roles, true, updated);
      if errs != [] {
        return;
      }
      ReplaceRole(users, roles, nextUserId, nextRoleId, k, updated);
      roles := ReplaceRow(roles, updated);
    }

    /** `user.destroy`: the `dependent: :destroy` association first destroys the
        user's role, then the user row goes. Nothing else changes. */
    method DestroyUser(id: int)
      requires Valid()
      requires FindById(users, id).Some?
      modifies this
      ensures Valid()
      ensures users == WithoutUser(old(users), id) && roles == WithoutRoleOf(old(roles), id)
      ensures nextUserId == old(nextUserId) && nextRoleId == old(nextRoleId)
      ensures FindById(users, id).None? && RoleOf(roles, id).None?
      ensures |users| == |old(users)| - 1 && |roles| == |old(roles)| - 1
    {
      DestroyKeepsConsistent(users, roles, nextUserId, nextRoleId, id);
      RolesMatchUsers(users, roles, nextUserId, nextRoleId);
      FindByIdUserIds(users, id);
      UserIdsCard(users);
      roles := WithoutRoleOf(roles, id);
      users := WithoutUser(users, id);
      RolesMatchUsers(users, roles, nextUserId, nextRoleId);
      UserIdsCard(users);
    }
  }
}
