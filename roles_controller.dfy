/** `Api::V1::RolesController`: list, show and rename roles. Every action first
    requires a logged-in user (`authenticate_user!`); `show` and `update` then
    load the role (`set_role`, 404 when absent); the policy decides, and a
    refusal is rendered as 403. `current` is the concern's `current_user`. */
module RolesController {
  import opened Wrappers
  import opened Users
  import opened Roles
  import opened Store
  import opened RolePolicy
  import opened Http

  /** The policy's view of the logged-in user: its id and `user.role`. */
  function ActorFor(u: User, roles: seq<Role>): (a: Actor)
    ensures a.id == u.id && a.role == RoleOf(roles, u.id)
  {
    Actor(u.id, RoleOf(roles, u.id))
  }

  /** Every role's owner is a stored user, so `role.user` is never nil. */
  predicate OwnersExist(users: seq<User>, roles: seq<Role>) {
    forall r :: r in roles ==> FindById(users, r.userId).Some?
  }

  lemma SoundTablesOwnersExist(users: seq<User>, roles: seq<Role>, nextUserId: int, nextRoleId: int)
    requires TablesSound(users, roles, nextUserId, nextRoleId)
    ensures OwnersExist(users, roles)
  {
    forall r | r in roles ensures FindById(users, r.userId).Some? {
      assert r.userId in Owners(roles);
      FindByIdUserIds(users, r.userId);
    }
  }

  /** `role_response`: the role with its owner's name and email. */
  function RoleResponse(users: seq<User>, r: Role): (v: RoleView)
    requires FindById(users, r.userId).Some?
    ensures v.id == r.id && v.name == r.name && v.userId == r.userId
    ensures exists o :: o in users && o.id == r.userId && v.userName == o.name && v.userEmail == o.email
  {
    var owner := FindById(users, r.userId).value;
    RoleView(r.id, r.name, r.userId, owner.name, owner.email)
  }

  /** `roles.map { |role| role_response(role) }`. */
  function RoleResponses(users: seq<User>, rows: seq<Role>): (vs: seq<RoleView>)
    requires OwnersExist(users, rows)
    ensures |vs| == |rows|
    ensures forall i :: 0 <= i < |rows| ==> vs[i].id == rows[i].id && vs[i].name == rows[i].name
    ensures forall i :: 0 <= i < |rows| ==> vs[i] == RoleResponse(users, rows[i])
  {
    seq(|rows|, i requires 0 <= i < |rows| => assert rows[i] in rows; RoleResponse(users, rows[i]))
  }

  /** `roles_summary`: the size of the listed scope and of each name scope within it. */
  function RolesSummary(rows: seq<Role>): Summary {
    Summary(|rows|, |Admins(rows)|, |Hrs(rows)|, |Managers(rows)|, |Employees(rows)|)
  }

  /** Over valid names, the per-name counts partition the total; no count
      exceeds the total. */
  lemma SummaryAddsUp(rows: seq<Role>)
    requires AllNamesValid(rows)
    ensures var s := RolesSummary(rows); s.admins + s.hrs + s.managers + s.employees == s.total
    ensures var s := RolesSummary(rows); s.admins <= s.total && s.hrs <= s.total && s.managers <= s.total && s.employees <= s.total
  {
    ScopeCountsSum(rows);
  }

  /** `index`: 401 without a user, 403 unless `index?`, otherwise the scoped
      roles with the summary of that same scope. */
  function Index(current: Option<User>, users: seq<User>, roles: seq<Role>): (resp: Response)
    requires OwnersExist(users, roles)
    ensures current.None? ==> resp == UnauthorizedResponse
    ensures current.Some? && !RolePolicy.Index(ActorFor(current.value, roles)) ==> resp == ForbiddenResponse
    ensures resp.status == Ok <==> current.Some? && RolePolicy.Index(ActorFor(current.value, roles))
  {
    if current.None? then
      UnauthorizedResponse
    else
      var actor := ActorFor(current.value, roles);
      if !RolePolicy.Index(actor) then
        ForbiddenResponse
      else
        var scoped := Resolve(actor, roles);
        ResolveIsShowFilter(actor, roles);
        Response(Ok, RoleListBody(RoleResponses(users, scoped), RolesSummary(scoped)))
  }

  /** Administrators and HR get every role, and a summary that counts every role:
      the summary describes exactly the rows listed. */
  lemma IndexListsAllRoles(current: Option<User>, users: seq<User>, roles: seq<Role>)
    requires OwnersExist(users, roles) && AllNamesValid(roles)
    requires current.Some? && AdminOrHr(ActorFor(current.value, roles))
    ensures var resp := Index(current, users, roles);
      && resp.status == Ok
      && resp.body == RoleListBody(RoleResponses(users, roles), RolesSummary(roles))
      && |resp.body.roles| == resp.body.summary.total == |roles|
      && resp.body.summary.admins + resp.body.summary.hrs + resp.body.summary.managers
         + resp.body.summary.employees == |roles|
  {
    ScopeCountsSum(roles);
  }

  /** Managers, employees and users without a role are refused the listing. */
  lemma IndexRefusesOrdinaryUsers(u: User, users: seq<User>, roles: seq<Role>)
    requires OwnersExist(users, roles)
    requires RoleOf(roles, u.id).None? || RoleOf(roles, u.id).value.name in [Manager, Employee]
    ensures Index(Some(u), users, roles) == ForbiddenResponse
  {
  }

  /** `show`: 401 without a user, 404 for an unknown id, 403 unless `show?`,
      otherwise the role. */
  function Show(current: Option<User>, users: seq<User>, roles: seq<Role>, id: int): (resp: Response)
    requires OwnersExist(users, roles)
    ensures current.None? ==> resp == UnauthorizedResponse
    ensures current.Some? && FindRole(roles, id).None? ==> resp == Response(NotFound, ErrorBody(RoleNotFoundMessage))
    ensures (current.Some? && FindRole(roles, id).Some? &&
             !RolePolicy.Show(ActorFor(current.value, roles), FindRole(roles, id).value)) ==> resp == ForbiddenResponse
    ensures resp.status == Ok <==>
      current.Some? && FindRole(roles, id).Some? && RolePolicy.Show(ActorFor(current.value, roles), FindRole(roles, id).value)
    ensures resp.status == Ok ==>
      FindRole(roles, id).Some? && resp == Response(Ok, RoleBody(RoleResponse(users, FindRole(roles, id).value)))
  {
    if current.None? then
      UnauthorizedResponse
    else if FindRole(roles, id).None? then
      Response(NotFound, ErrorBody(RoleNotFoundMessage))
    else
      var record := FindRole(roles, id).value;
      if !RolePolicy.Show(ActorFor(current.value, roles), record) then
        ForbiddenResponse
      else
        Response(Ok, RoleBody(RoleResponse(users, record)))
  }

  /** Every logged-in user sees its own role; an ordinary user asking for
      someone else's role is refused with 403. */
  lemma ShowOwnOnly(u: User, users: seq<User>, roles: seq<Role>, id: int)
    requires OwnersExist(users, roles)
    requires FindRole(roles, id).Some?
    ensures FindRole(roles, id).value.userId == u.id ==> Show(Some(u), users, roles, id).status == Ok
    ensures !AdminOrHr(ActorFor(u, roles)) && FindRole(roles, id).value.userId != u.id ==>
      Show(Some(u), users, roles, id) == ForbiddenResponse
  {
  }

  /** `role_params`: `params.require(:role).permit(:name)`. None where `require`
      raises (the parameter is missing or empty); otherwise the permitted name,
      if one was sent. */
  function RoleParams(role: Option<map<string, string>>): (p: Option<Option<string>>)
    ensures p.None? <==> role.None? || role.value == map[]
    ensures p.Some? ==> (p.value.Some? <==> "name" in role.value)
    ensures p.Some? && p.value.Some? ==> p.value.value == role.value["name"]
  {
    if role.None? || role.value == map[] then None
    else if "name" in role.value then Some(Some(role.value["name"]))
    else Some(None)
  }

  /** Strong parameters: any attribute other than `name` (such as `user_id`)
      is dropped, so it cannot reach the record. */
  lemma OnlyNamePermitted(m: map<string, string>, key: string, value: string)
    requires m != map[] && key != "name"
    ensures RoleParams(Some(m[key := value])) == RoleParams(Some(m))
  {
    assert "name" in m[key := value] <==> "name" in m;
  }

  /** `update`: 401 without a user, 404 for an unknown id, 403 unless `update?`,
      400 when the `role` parameter is missing, 422 with the role's errors when
      validation fails, otherwise the role is written and shown. Only a
      successful update changes the tables, and only that one role's name. */
  method Update(db: Database, current: Option<User>, id: int, role: Option<map<string, string>>)
    returns (resp: Response)
    requires db.Valid()
    modifies db
    ensures db.Valid()
    ensures db.users == old(db.users) && db.nextUserId == old(db.nextUserId) && db.nextRoleId == old(db.nextRoleId)
    ensures current.None? ==> resp == UnauthorizedResponse && db.roles == old(db.roles)
    ensures current.Some? && FindRole(old(db.roles), id).None? ==>
      resp == Response(NotFound, ErrorBody(RoleNotFoundMessage)) && db.roles == old(db.roles)
    ensures (current.Some? && FindRole(old(db.roles), id).Some? &&
             !RolePolicy.Update(ActorFor(current.value, old(db.roles)), FindRole(old(db.roles), id).value)) ==>
      resp == ForbiddenResponse && db.roles == old(db.roles)
    ensures (current.Some? && FindRole(old(db.roles), id).Some? &&
             RolePolicy.Update(ActorFor(current.value, old(db.roles)), FindRole(old(db.roles), id).value) &&
             RoleParams(role).None?) ==>
      resp == MissingParameter("role") && db.roles == old(db.roles)
    ensures (current.Some? && FindRole(old(db.roles), id).Some? &&
             RolePolicy.Update(ActorFor(current.value, old(db.roles)), FindRole(old(db.roles), id).value) &&
             RoleParams(role).Some?) ==>
      (var r := FindRole(old(db.roles), id).value;
       var updated := if RoleParams(role).value.Some? then r.(name := RoleParams(role).value.value) else r;
       updated.name !in ValidRoles ==>
         resp == Response(UnprocessableEntity, RoleErrorsBody(Roles.Validate(old(db.roles), true, updated)))
         && db.roles == old(db.roles))
    ensures resp.status == Ok <==>
      && current.Some? && FindRole(old(db.roles), id).Some?
      && RolePolicy.Update(ActorFor(current.value, old(db.roles)), FindRole(old(db.roles), id).value)
      && RoleParams(role).Some?
      && (var r := FindRole(old(db.roles), id).value;
          var name := if RoleParams(role).value.Some? then RoleParams(role).value.value else r.name;
          name in ValidRoles)
    ensures resp.status == Ok ==>
      && (var r := FindRole(old(db.roles), id).value;
          var updated := if RoleParams(role).value.Some? then r.(name := RoleParams(role).value.value) else r;
          && db.roles == ReplaceRow(old(db.roles), updated)
          && FindById(db.users, updated.userId).Some?
          && resp == Response(Ok, RoleUpdatedBody(RoleResponse(db.users, updated), RoleUpdatedMessage)))
    ensures resp.status != Ok ==> db.roles == old(db.roles)
    ensures resp.status == UnprocessableEntity ==> resp.body.RoleErrorsBody? && resp.body.roleErrors != []
  {
    if current.None? {
      return UnauthorizedResponse;
    }
    var found := FindRole(db.roles, id);
    if found.None? {
      return Response(NotFound, ErrorBody(RoleNotFoundMessage));
    }
    if !RolePolicy.Update(ActorFor(current.value, db.roles), found.value) {
      return ForbiddenResponse;
    }
    var params := RoleParams(role);
    if params.None? {
      return MissingParameter("role");
    }
    var updated, errs := db.UpdateRole(id, params.value);
    if errs != [] {
      return Response(UnprocessableEntity, RoleErrorsBody(errs));
    }
    SoundTablesOwnersExist(db.users, db.roles, db.nextUserId, db.nextRoleId);
    assert updated in db.roles by {
      var k :| 0 <= k < |old(db.roles)| && old(db.roles)[k] == found.value;
      assert db.roles[k] == updated;
    }
    return Response(Ok, RoleUpdatedBody(RoleResponse(db.users, updated), RoleUpdatedMessage));
  }
}
