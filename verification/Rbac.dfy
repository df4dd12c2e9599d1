/**
 Role-based permissions: the tables behind them, and the join that gives a user's
 effective permissions at a moment. Role parents are stored but never consulted.
 */
module Rbac {
  import opened Base

  /** Keyed by user and role, as the store is. */
  datatype UserRole = UserRole(user: int, role: int, tenant: int, expiresAt: Option<int>)

  datatype RolePermission = RolePermission(role: int, permission: int)

  datatype Permission = Permission(resource: string, action: string)

  datatype Tables = Tables(roles: set<int>, permissions: map<int, Permission>,
                           userRoles: seq<UserRole>, rolePermissions: seq<RolePermission>)

  function Name(resource: string, action: string): string {
    resource + ":" + action
  }

  predicate Current(ur: UserRole, user: int, tenant: int, now: int) {
    && ur.user == user && ur.tenant == tenant
    && (ur.expiresAt.Some? ==> ur.expiresAt.value > now)
  }

  predicate Joins(t: Tables, i: int, j: int, user: int, tenant: int, now: int) {
    && 0 <= i < |t.userRoles| && 0 <= j < |t.rolePermissions|
    && Current(t.userRoles[i], user, tenant, now)
    && t.userRoles[i].role in t.roles
    && t.rolePermissions[j].role == t.userRoles[i].role
    && t.rolePermissions[j].permission in t.permissions
  }

  function JoinedName(t: Tables, j: int): string
    requires 0 <= j < |t.rolePermissions| && t.rolePermissions[j].permission in t.permissions
  {
    var p := t.permissions[t.rolePermissions[j].permission];
    Name(p.resource, p.action)
  }

  /** The effective permissions of a user in a tenant. */
  ghost predicate Effective(t: Tables, user: int, tenant: int, now: int, name: string) {
    exists i, j :: Joins(t, i, j, user, tenant, now) && JoinedName(t, j) == name
  }

  /** With the tables fixed, effective permissions only shrink as assignments expire. */
  lemma EffectiveShrinks(t: Tables, user: int, tenant: int, now: int, later: int, name: string)
    requires now <= later && Effective(t, user, tenant, later, name)
    ensures Effective(t, user, tenant, now, name)
  {
    var i, j :| Joins(t, i, j, user, tenant, later) && JoinedName(t, j) == name;
    assert Joins(t, i, j, user, tenant, now);
  }

  predicate HasKey(userRoles: seq<UserRole>, user: int, role: int) {
    exists i :: 0 <= i < |userRoles| && userRoles[i].user == user && userRoles[i].role == role
  }

  /** INSERT ... ON CONFLICT DO NOTHING. */
  function Assign(t: Tables, ur: UserRole): Tables {
    if HasKey(t.userRoles, ur.user, ur.role) then t
    else t.(userRoles := t.userRoles + [ur])
  }

  function Without(userRoles: seq<UserRole>, user: int, role: int): seq<UserRole> {
    if userRoles == [] then []
    else Without(userRoles[..|userRoles| - 1], user, role)
         + var last := userRoles[|userRoles| - 1]; if last.user == user && last.role == role then [] else [last]
  }

  ghost predicate HoldsRole(t: Tables, user: int, role: int, tenant: int, now: int) {
    exists i :: 0 <= i < |t.userRoles| && t.userRoles[i].role == role && Current(t.userRoles[i], user, tenant, now)
  }

  /**
   Assigning a role gives it, unless a row for the same user and role is already
   there: an expired assignment, or one in another tenant, blocks its renewal.
   */
  lemma AssignmentTakesEffectIff(t: Tables, ur: UserRole, now: int)
    requires ur.expiresAt.Some? ==> ur.expiresAt.value > now
    ensures HoldsRole(Assign(t, ur), ur.user, ur.role, ur.tenant, now)
            <==> || !(exists other | other in t.userRoles :: other.user == ur.user && other.role == ur.role)
                 || HoldsRole(t, ur.user, ur.role, ur.tenant, now)
  {
    var after := Assign(t, ur);
    if !HasKey(t.userRoles, ur.user, ur.role) {
      assert after.userRoles[|t.userRoles|] == ur;
    }
  }

  /** Who holds a role: an assignment of it to the user, in this tenant, not expired. */
  lemma HoldsRoleIff(t: Tables, user: int, role: int, tenant: int, now: int)
    ensures HoldsRole(t, user, role, tenant, now) <==>
              exists ur | ur in t.userRoles ::
                ur.user == user && ur.role == role && ur.tenant == tenant
                && (ur.expiresAt == None || now < ur.expiresAt.value)
  {
    if ur :| ur in t.userRoles && ur.user == user && ur.role == role && ur.tenant == tenant
             && (ur.expiresAt == None || now < ur.expiresAt.value) {
      var i :| 0 <= i < |t.userRoles| && t.userRoles[i] == ur;
    }
    if i :| 0 <= i < |t.userRoles| && t.userRoles[i].role == role && Current(t.userRoles[i], user, tenant, now) {
      assert t.userRoles[i] in t.userRoles;
    }
  }

  /** A permission is effective iff the user holds an existing role it is attached to, and it is written as asked. */
  lemma EffectiveIff(t: Tables, user: int, tenant: int, now: int, name: string)
    ensures Effective(t, user, tenant, now, name) <==>
              exists rp | rp in t.rolePermissions ::
                && rp.role in t.roles && HoldsRole(t, user, rp.role, tenant, now)
                && rp.permission in t.permissions
                && name == t.permissions[rp.permission].resource + ":" + t.permissions[rp.permission].action
  {
    if i, j :| Joins(t, i, j, user, tenant, now) && JoinedName(t, j) == name {
      assert t.rolePermissions[j] in t.rolePermissions;
    }
    if rp :| && rp in t.rolePermissions
             && rp.role in t.roles && HoldsRole(t, user, rp.role, tenant, now)
             && rp.permission in t.permissions
             && name == t.permissions[rp.permission].resource + ":" + t.permissions[rp.permission].action {
      var j :| 0 <= j < |t.rolePermissions| && t.rolePermissions[j] == rp;
      var i :| 0 <= i < |t.userRoles| && t.userRoles[i].role == rp.role && Current(t.userRoles[i], user, tenant, now);
      assert Joins(t, i, j, user, tenant, now);
    }
  }

  /** Attaching a permission to a role gives it to those who hold the role, and changes nothing else. */
  lemma EffectiveAfterAttach(t: Tables, role: int, permission: int, user: int, tenant: int, now: int, name: string)
    requires role in t.roles && permission in t.permissions
    ensures Effective(t.(rolePermissions := t.rolePermissions + [RolePermission(role, permission)]),
                      user, tenant, now, name)
            <==> || Effective(t, user, tenant, now, name)
                 || (HoldsRole(t, user, role, tenant, now)
                     && name == t.permissions[permission].resource + ":" + t.permissions[permission].action)
  {
    var rp := RolePermission(role, permission);
    var after := t.(rolePermissions := t.rolePermissions + [rp]);
    hide Joins, JoinedName, Effective;
    EffectiveIff(t, user, tenant, now, name);
    EffectiveIff(after, user, tenant, now, name);
    assert forall x :: x in after.rolePermissions <==> x in t.rolePermissions || x == rp;
    assert forall r :: HoldsRole(after, user, r, tenant, now) <==> HoldsRole(t, user, r, tenant, now);
  }

  /** Is the permission of this name attached to this existing role? */
  ghost predicate Gives(t: Tables, role: int, name: string) {
    exists rp | rp in t.rolePermissions ::
      && rp.role == role && role in t.roles && rp.permission in t.permissions
      && name == t.permissions[rp.permission].resource + ":" + t.permissions[rp.permission].action
  }

  lemma EffectiveThroughRole(t: Tables, user: int, tenant: int, now: int, name: string)
    ensures Effective(t, user, tenant, now, name) <==>
              exists role :: Gives(t, role, name) && HoldsRole(t, user, role, tenant, now)
  {
    hide Joins, JoinedName, Effective, HoldsRole;
    EffectiveIff(t, user, tenant, now, name);
    if rp :| && rp in t.rolePermissions
             && rp.role in t.roles && HoldsRole(t, user, rp.role, tenant, now)
             && rp.permission in t.permissions
             && name == t.permissions[rp.permission].resource + ":" + t.permissions[rp.permission].action {
      assert Gives(t, rp.role, name);
    }
  }

  /**
   Assigning a role, where no row for the user and role is there, gives its
   permissions to that user, in that tenant, until it expires, and nobody else anything.
   */
  lemma EffectiveAfterAssign(t: Tables, ur: UserRole, user: int, tenant: int, now: int, name: string)
    requires !(exists other | other in t.userRoles :: other.user == ur.user && other.role == ur.role)
    ensures Effective(Assign(t, ur), user, tenant, now, name)
            <==> || Effective(t, user, tenant, now, name)
                 || (user == ur.user && tenant == ur.tenant && (ur.expiresAt == None || now < ur.expiresAt.value)
                     && Gives(t, ur.role, name))
  {
    var after := Assign(t, ur);
    assert after == t.(userRoles := t.userRoles + [ur]) by {
      assert forall i | 0 <= i < |t.userRoles| :: t.userRoles[i] in t.userRoles;
    }
    EffectiveThroughRole(t, user, tenant, now, name);
    EffectiveThroughRole(after, user, tenant, now, name);
    hide Effective, HoldsRole, Assign;
    forall role
      ensures HoldsRole(after, user, role, tenant, now) <==>
                || HoldsRole(t, user, role, tenant, now)
                || (user == ur.user && role == ur.role && tenant == ur.tenant
                    && (ur.expiresAt == None || now < ur.expiresAt.value))
      ensures Gives(after, role, name) <==> Gives(t, role, name)
    {
      HoldsRoleIff(t, user, role, tenant, now);
      HoldsRoleIff(after, user, role, tenant, now);
      assert forall x :: x in after.userRoles <==> x in t.userRoles || x == ur;
    }
  }

  /** Removing a role leaves a user exactly the permissions of his other roles, and everyone else theirs. */
  lemma EffectiveAfterRemove(t: Tables, user: int, role: int, who: int, tenant: int, now: int, name: string)
    ensures Effective(t.(userRoles := Without(t.userRoles, user, role)), who, tenant, now, name)
            <==> exists r :: !(who == user && r == role) && Gives(t, r, name) && HoldsRole(t, who, r, tenant, now)
  {
    var after := t.(userRoles := Without(t.userRoles, user, role));
    EffectiveThroughRole(after, who, tenant, now, name);
    hide Effective, HoldsRole;
    forall r
      ensures HoldsRole(after, who, r, tenant, now) <==>
                !(who == user && r == role) && HoldsRole(t, who, r, tenant, now)
      ensures Gives(after, r, name) <==> Gives(t, r, name)
    {
      HoldsRoleIff(t, who, r, tenant, now);
      HoldsRoleIff(after, who, r, tenant, now);
      forall ur ensures ur in after.userRoles <==> ur in t.userRoles && !(ur.user == user && ur.role == role) {
        WithoutHas(t.userRoles, user, role, ur);
      }
    }
  }

  /** The renewal of an assignment that has expired: the expired row keeps the new one out. */
  lemma ExpiredRowBlocks(user: int, role: int, tenant: int, at: int, now: int)
    requires at <= now
    ensures var t := Tables({role}, map[], [UserRole(user, role, tenant, Some(at))], []);
            !HoldsRole(Assign(t, UserRole(user, role, tenant, None)), user, role, tenant, now)
  {
    var expired := UserRole(user, role, tenant, Some(at));
    var t := Tables({role}, map[], [expired], []);
    assert t.userRoles[0] == expired;
    AssignmentTakesEffectIff(t, UserRole(user, role, tenant, None), now);
  }

  lemma {:induction false} WithoutHas(userRoles: seq<UserRole>, user: int, role: int, ur: UserRole)
    ensures ur in Without(userRoles, user, role) <==> ur in userRoles && !(ur.user == user && ur.role == role)
  {
    if userRoles != [] {
      var n := |userRoles| - 1;
      WithoutHas(userRoles[..n], user, role, ur);
      assert ur in userRoles <==> ur in userRoles[..n] || ur == userRoles[n];
    }
  }

  /** After removal a fresh assignment of the same role always takes effect. */
  lemma RemoveThenAssign(t: Tables, ur: UserRole, now: int)
    requires ur.expiresAt.Some? ==> ur.expiresAt.value > now
    ensures var removed := t.(userRoles := Without(t.userRoles, ur.user, ur.role));
            && !HoldsRole(removed, ur.user, ur.role, ur.tenant, now)
            && HoldsRole(Assign(removed, ur), ur.user, ur.role, ur.tenant, now)
  {
    var removed := t.(userRoles := Without(t.userRoles, ur.user, ur.role));
    forall i | 0 <= i < |removed.userRoles|
      ensures !(removed.userRoles[i].user == ur.user && removed.userRoles[i].role == ur.role)
    {
      WithoutHas(t.userRoles, ur.user, ur.role, removed.userRoles[i]);
    }
    AssignmentTakesEffectIff(removed, ur, now);
  }

  class Service {
    var roles: set<int>
    var permissions: map<int, Permission>
    var userRoles: seq<UserRole>
    var rolePermissions: seq<RolePermission>

    function Model(): Tables
      reads this
    {
      Tables(roles, permissions, userRoles, rolePermissions)
    }

    constructor ()
      ensures Model() == Tables({}, map[], [], [])
    {
      roles, permissions, userRoles, rolePermissions := {}, map[], [], [];
    }

    method AssignUserRole(user: int, role: int, tenant: int, expiresAt: Option<int>)
      modifies this
      ensures Model() == Assign(old(Model()), UserRole(user, role, tenant, expiresAt))
    {
      if !HasKey(userRoles, user, role) {
        userRoles := userRoles + [UserRole(user, role, tenant, expiresAt)];
      }
    }

    method RemoveUserRole(user: int, role: int)
      modifies this
      ensures Model() == old(Model()).(userRoles := Without(old(userRoles), user, role))
    {
      var kept := [];
      for i := 0 to |userRoles|
        invariant kept == Without(userRoles[..i], user, role)
        invariant Model() == old(Model())
      {
        assert userRoles[..i + 1][..i] == userRoles[..i];
        if !(userRoles[i].user == user && userRoles[i].role == role) {
          kept := kept + [userRoles[i]];
        }
      }
      assert userRoles[..|userRoles|] == userRoles;
      userRoles := kept;
    }

    method AssignRolePermission(role: int, permission: int)
      modifies this
      ensures Model() == old(Model()).(rolePermissions :=
                if RolePermission(role, permission) in old(rolePermissions) then old(rolePermissions)
                else old(rolePermissions) + [RolePermission(role, permission)])
    {
      if RolePermission(role, permission) !in rolePermissions {
        rolePermissions := rolePermissions + [RolePermission(role, permission)];
      }
    }

    method GetEffectivePermissions(user: int, tenant: int, now: int) returns (names: set<string>)
      ensures forall name :: name in names <==> Effective(Model(), user, tenant, now, name)
    {
      names := {};
      var t := Model();
      for i := 0 to |userRoles|
        invariant forall name :: name in names <==>
                    exists x, y :: x < i && Joins(t, x, y, user, tenant, now) && JoinedName(t, y) == name
      {
        for j := 0 to |rolePermissions|
          invariant forall name :: name in names <==>
                      exists x, y :: (x < i || (x == i && y < j))
                                     && Joins(t, x, y, user, tenant, now) && JoinedName(t, y) == name
        {
          if Joins(t, i, j, user, tenant, now) {
            names := names + {JoinedName(t, j)};
          }
        }
      }
    }

    method HasPermission(user: int, tenant: int, now: int, resource: string, action: string) returns (has: bool)
      ensures has <==> Effective(Model(), user, tenant, now, resource + ":" + action)
    {
      var names := GetEffectivePermissions(user, tenant, now);
      has := Name(resource, action) in names;
    }
  }
}
