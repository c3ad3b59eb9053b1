/** Granting permissions to roles through rows that may repeat, and the permissions that a user ends up with. */
module RolePermissions {
  import opened Options

  /** A row of `role_permission`: the ids of a role and of a permission. */
  datatype Grant = Grant(role: nat, permission: nat)

  /** A call of `updateRolePermission`, and whether the context has a user when it reports the change. */
  datatype Call = Call(roleCode: string, permissionIds: seq<nat>, enabled: bool, hasUser: bool)

  /** The tables of roles by code and of permissions by id. */
  datatype Catalogue = Catalogue(roles: map<string, nat>, permissions: map<nat, string>)

  datatype Outcome = Updated | RoleNotFound | ForeignKeyViolation | TypeError

  function OutcomeOf(c: Catalogue, call: Call): Outcome {
    if call.roleCode !in c.roles then RoleNotFound
    else if call.enabled && exists i :: 0 <= i < |call.permissionIds| && call.permissionIds[i] !in c.permissions then
      ForeignKeyViolation
    else if !call.hasUser then TypeError
    else Updated
  }

  /** The rows that are left when those of the role and the listed permissions are deleted, in order. */
  function Without(rows: seq<Grant>, role: nat, ids: seq<nat>): seq<Grant> {
    if rows == [] then []
    else
      var before := Without(rows[..|rows| - 1], role, ids);
      var g := rows[|rows| - 1];
      if g.role == role && g.permission in ids then before else before + [g]
  }

  lemma {:induction false} WithoutExactly(rows: seq<Grant>, role: nat, ids: seq<nat>, g: Grant)
    ensures g in Without(rows, role, ids) <==> g in rows && !(g.role == role && g.permission in ids)
  {
    if rows != [] {
      WithoutExactly(rows[..|rows| - 1], role, ids, g);
      assert rows == rows[..|rows| - 1] + [rows[|rows| - 1]];
    }
  }

  lemma {:induction false} WithoutKeepsCopies(rows: seq<Grant>, role: nat, ids: seq<nat>, g: Grant)
    ensures multiset(Without(rows, role, ids))[g] ==
            if g.role == role && g.permission in ids then 0 else multiset(rows)[g]
  {
    if rows != [] {
      WithoutKeepsCopies(rows[..|rows| - 1], role, ids, g);
      assert rows == rows[..|rows| - 1] + [rows[|rows| - 1]];
    }
  }

  /** A row for each id, in order. */
  function Grants(role: nat, ids: seq<nat>): seq<Grant> {
    seq(|ids|, i requires 0 <= i < |ids| => Grant(role, ids[i]))
  }

  lemma {:induction false} GrantsHaveCopies(role: nat, ids: seq<nat>, g: Grant)
    ensures multiset(Grants(role, ids))[g] == if g.role == role then multiset(ids)[g.permission] else 0
  {
    if ids != [] {
      var n := |ids| - 1;
      GrantsHaveCopies(role, ids[..n], g);
      assert ids == ids[..n] + [ids[n]];
      assert Grants(role, ids) == Grants(role, ids[..n]) + [Grant(role, ids[n])];
    }
  }

  /** The rows that a call leaves. */
  function RowsAfter(c: Catalogue, rows: seq<Grant>, call: Call): seq<Grant> {
    if OutcomeOf(c, call) != Updated then rows
    else if call.enabled then rows + Grants(c.roles[call.roleCode], call.permissionIds)
    else Without(rows, c.roles[call.roleCode], call.permissionIds)
  }

  /** The role exists, the context has a user, and an enabling call lists known permissions only. */
  predicate TakesEffect(c: Catalogue, call: Call) {
    && call.roleCode in c.roles && call.hasUser
    && (call.enabled ==> ListsKnown(c, call))
  }

  predicate ListsKnown(c: Catalogue, call: Call) {
    forall i :: 0 <= i < |call.permissionIds| ==> call.permissionIds[i] in c.permissions
  }

  /** Each end of a call has its own cause, and none before it. */
  lemma OutcomeExactly(c: Catalogue, call: Call)
    ensures OutcomeOf(c, call) == Updated <==> TakesEffect(c, call)
    ensures OutcomeOf(c, call) == RoleNotFound <==> call.roleCode !in c.roles
    ensures OutcomeOf(c, call) == ForeignKeyViolation <==>
            call.roleCode in c.roles && call.enabled && !ListsKnown(c, call)
    ensures OutcomeOf(c, call) == TypeError <==>
            call.roleCode in c.roles && (call.enabled ==> ListsKnown(c, call)) && !call.hasUser
  {
  }

  /**
   * How many copies of a row a call leaves: with an effect, a disabling call takes all copies of the role's
   * listed rows, and an enabling one adds a copy for each time that the id is listed. Every other row is as before.
   */
  lemma CopiesAfterCall(c: Catalogue, before: seq<Grant>, call: Call, g: Grant)
    ensures multiset(RowsAfter(c, before, call))[g] ==
            if !TakesEffect(c, call) || c.roles[call.roleCode] != g.role || g.permission !in call.permissionIds
            then multiset(before)[g]
            else if call.enabled then multiset(before)[g] + multiset(call.permissionIds)[g.permission]
            else 0
  {
    OutcomeExactly(c, call);
    if TakesEffect(c, call) {
      WithoutKeepsCopies(before, c.roles[call.roleCode], call.permissionIds, g);
      GrantsHaveCopies(c.roles[call.roleCode], call.permissionIds, g);
    }
  }

  class PermissionService {
    const catalogue: Catalogue
    var rows: seq<Grant>

    constructor (catalogue: Catalogue, rows: seq<Grant>)
      requires forall g :: g in rows ==> g.permission in catalogue.permissions
      ensures this.catalogue == catalogue && this.rows == rows && Valid()
    {
      this.catalogue, this.rows := catalogue, rows;
    }

    /** The foreign key to the permissions holds. */
    ghost predicate Valid()
      reads this
    {
      forall g :: g in rows ==> g.permission in catalogue.permissions
    }

    /** Relate or unrelate the role and the permissions, in a transaction that is rolled back on any exception. */
    method UpdateRolePermission(call: Call) returns (outcome: Outcome)
      requires Valid()
      modifies this
      ensures Valid()
      ensures outcome == OutcomeOf(catalogue, call)
      ensures rows == RowsAfter(catalogue, old(rows), call)
    {
      var saved := rows;
      if call.roleCode !in catalogue.roles { return RoleNotFound; }
      var role := catalogue.roles[call.roleCode];
      var ids := call.permissionIds;
      if call.enabled {
        for i := 0 to |ids|
          invariant forall j :: 0 <= j < i ==> ids[j] in catalogue.permissions
          invariant Valid()
          invariant rows == old(rows) + Grants(role, ids[..i])
        {
          assert Grants(role, ids[..i + 1]) == Grants(role, ids[..i]) + [Grant(role, ids[i])];
          if ids[i] !in catalogue.permissions {
            rows := saved;
            return ForeignKeyViolation;
          }
          rows := rows + [Grant(role, ids[i])];
        }
        assert ids[..|ids|] == ids;
      } else {
        var left: seq<Grant> := [];
        for i := 0 to |rows|
          invariant rows == saved && left == Without(rows[..i], role, ids)
          invariant forall g :: g in left ==> g in rows
        {
          assert rows[..i + 1][..i] == rows[..i];
          if !(rows[i].role == role && rows[i].permission in ids) {
            left := left + [rows[i]];
          }
        }
        assert rows[..|rows|] == rows;
        rows := left;
      }
      if !call.hasUser {
        rows := saved;
        return TypeError;
      }
      return Updated;
    }

    /** A run of calls leaves exactly the grants that the last effective call about each of them says. */
    method UpdateAll(calls: seq<Call>)
      requires Valid()
      modifies this
      ensures Valid()
      ensures forall g :: g in rows <==> Granted(catalogue, old(rows), calls, g)
    {
      for i := 0 to |calls|
        invariant Valid()
        invariant forall g :: g in rows <==> Granted(catalogue, old(rows), calls[..i], g)
      {
        assert calls[..i + 1][..i] == calls[..i];
        ghost var before := rows;
        var outcome := UpdateRolePermission(calls[i]);
        forall g ensures g in rows <==> Granted(catalogue, old(rows), calls[..i + 1], g) {
          assert g in before <==> Granted(catalogue, old(rows), calls[..i], g);
          AfterCall(catalogue, before, calls[i], g);
        }
      }
      assert calls[..|calls|] == calls;
    }

    /** The role with the codes of its permissions, one for every row. */
    method FetchRole(id: nat) returns (role: Role)
      requires Valid()
      ensures role.id == id
      ensures role.permissions.Some?
      ensures forall code :: code in role.permissions.value <==> HoldsCode(catalogue, rows, id, code)
    {
      var codes: seq<string> := [];
      for i := 0 to |rows|
        invariant forall code :: code in codes <==>
                    exists k :: 0 <= k < i && rows[k].role == id && catalogue.permissions[rows[k].permission] == code
      {
        if rows[i].role == id {
          codes := codes + [catalogue.permissions[rows[i].permission]];
        }
      }
      role := Role(id, Some(codes));
      forall code ensures code in codes <==> HoldsCode(catalogue, rows, id, code) {
        if p :| Coded(catalogue, p, code) && Grant(id, p) in rows {
          var k :| 0 <= k < |rows| && rows[k] == Grant(id, p);
        }
        if code in codes {
          var k :| 0 <= k < |rows| && rows[k].role == id && catalogue.permissions[rows[k].permission] == code;
          assert Coded(catalogue, rows[k].permission, code) && rows[k] == Grant(id, rows[k].permission);
        }
      }
    }
  }

  /** After a call, a row is there if the call enables it, is not if the call disables it, and else as before. */
  lemma AfterCall(c: Catalogue, before: seq<Grant>, call: Call, g: Grant)
    ensures g in RowsAfter(c, before, call) <==> if Decides(c, call, g) then call.enabled else g in before
  {
    CopiesAfterCall(c, before, call, g);
  }

  /** The call decides about the grant. */
  predicate Decides(c: Catalogue, call: Call, g: Grant) {
    TakesEffect(c, call) && c.roles[call.roleCode] == g.role && g.permission in call.permissionIds
  }

  /** The last call that decides about the grant, or -1. */
  function LastCall(c: Catalogue, calls: seq<Call>, g: Grant): (k: int)
    ensures -1 <= k < |calls|
  {
    if calls == [] then -1
    else if Decides(c, calls[|calls| - 1], g) then |calls| - 1
    else LastCall(c, calls[..|calls| - 1], g)
  }

  /** The set-level replay: the last deciding call wins, and without one the initial rows. */
  predicate Granted(c: Catalogue, rows: seq<Grant>, calls: seq<Call>, g: Grant) {
    var k := LastCall(c, calls, g);
    if k >= 0 then calls[k].enabled else g in rows
  }

  // ----- A user's permissions -----

  /** A role as fetched: the codes of its permissions, one for every row, unless it was fetched without them. */
  datatype Role = Role(id: nat, permissions: Option<seq<string>>)

  class User {
    var roles: Option<seq<Role>>
    var permissions: set<string>

    constructor (roles: Option<seq<Role>>)
      ensures this.roles == roles && permissions == {}
    {
      this.roles, permissions := roles, {};
    }

    /**
     * The user's permissions become the codes of all permissions of all roles. `thrown` is the TypeError of a role
     * that was fetched without its permissions; then nothing is assigned.
     */
    method AfterFind() returns (thrown: bool)
      modifies this`permissions
      ensures thrown <==> roles.Some? && exists role :: role in roles.value && role.permissions.None?
      ensures thrown ==> permissions == old(permissions)
      ensures roles == None ==> permissions == {}
      ensures roles.Some? && !thrown ==> forall code :: code in permissions <==>
                exists role :: role in roles.value && role.permissions.Some? && code in role.permissions.value
    {
      var allPermissionsSet := {};
      if roles.Some? {
        for i := 0 to |roles.value|
          invariant forall k :: 0 <= k < i ==> roles.value[k].permissions.Some?
          invariant forall code :: code in allPermissionsSet <==>
                      exists k :: 0 <= k < i && code in roles.value[k].permissions.value
        {
          if roles.value[i].permissions.None? { return true; }
          var codes := roles.value[i].permissions.value;
          ghost var before := allPermissionsSet;
          for j := 0 to |codes|
            invariant forall code :: code in allPermissionsSet <==> code in before || code in codes[..j]
          {
            assert codes[..j + 1] == codes[..j] + [codes[j]];
            allPermissionsSet := allPermissionsSet + {codes[j]};
          }
          assert codes[..|codes|] == codes;
        }
      }
      permissions := allPermissionsSet;
      return false;
    }
  }

  /**
   * After any run of calls, a user fetched with roles of the given ids has exactly the permissions that the
   * replay grants to one of these roles, however often a row was repeated.
   */
  method PermissionsAfterCalls(service: PermissionService, calls: seq<Call>, roleIds: seq<nat>) returns (user: User)
    requires service.Valid()
    modifies service
    ensures forall code :: code in user.permissions <==>
              exists role, p :: role in roleIds && Coded(service.catalogue, p, code)
                && Granted(service.catalogue, old(service.rows), calls, Grant(role, p))
  {
    service.UpdateAll(calls);
    var roles: seq<Role> := [];
    for i := 0 to |roleIds|
      invariant service.Valid() && |roles| == i
      invariant forall g :: g in service.rows <==> Granted(service.catalogue, old(service.rows), calls, g)
      invariant forall k :: 0 <= k < i ==> roles[k].permissions.Some?
      invariant forall k, code :: 0 <= k < i ==>
                  (code in roles[k].permissions.value <==> HoldsCode(service.catalogue, service.rows, roleIds[k], code))
    {
      var role := service.FetchRole(roleIds[i]);
      roles := roles + [role];
    }
    user := new User(Some(roles));
    var _ := user.AfterFind();
    forall code ensures code in user.permissions <==>
        exists role, p :: role in roleIds && Coded(service.catalogue, p, code) && Grant(role, p) in service.rows
    {
      if code in user.permissions {
        var role :| role in roles && code in role.permissions.value;
        var k :| 0 <= k < |roles| && roles[k] == role;
        assert HoldsCode(service.catalogue, service.rows, roleIds[k], code);
      }
      if role, p :| role in roleIds && Coded(service.catalogue, p, code) && Grant(role, p) in service.rows {
        var k :| 0 <= k < |roleIds| && roleIds[k] == role;
        assert HoldsCode(service.catalogue, service.rows, role, code);
        assert code in roles[k].permissions.value && roles[k] in roles;
      }
    }
  }

  predicate Coded(c: Catalogue, p: nat, code: string) {
    p in c.permissions && c.permissions[p] == code
  }

  /** Some row grants the role a permission of the code. */
  ghost predicate HoldsCode(c: Catalogue, rows: seq<Grant>, role: nat, code: string) {
    exists p :: Coded(c, p, code) && Grant(role, p) in rows
  }
}
