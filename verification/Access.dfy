/**
 * Resource access: the step-by-step check, the effective permissions of a resource, and
 * the single joined statement that lists every accessible resource.
 */
module Access {
  import opened Json

  // ----- tables -----

  datatype AssignmentRow = AssignmentRow(id: string, org: string, group: string, kind: string, resource: string, active: bool)

  // A membership of an organization or of a group.
  datatype MemberRow = MemberRow(of: string, user: string, active: bool)

  datatype RoleRow = RoleRow(assignment: string, user: string, role: string, active: bool)

  datatype PolicyRow = PolicyRow(org: string, kind: string, role: string, permission: string, active: bool)

  datatype Database = Database(
    admins: set<string>,
    orgMembers: seq<MemberRow>,
    groupMembers: seq<MemberRow>,
    assignments: seq<AssignmentRow>,
    memberRoles: seq<RoleRow>,
    policies: seq<PolicyRow>)

  // The unique constraints of the tables that matter to access.
  ghost predicate Constrained(db: Database) {
    && (forall a, b :: a in db.assignments && b in db.assignments && SameAssignment(a, b) ==> a == b)
    && (forall m, n :: m in db.memberRoles && n in db.memberRoles && m.assignment == n.assignment && m.user == n.user ==> m == n)
  }

  predicate SameAssignment(a: AssignmentRow, b: AssignmentRow) {
    a.org == b.org && a.kind == b.kind && a.resource == b.resource
  }

  // The enumerations whose constructors reject any other text.
  datatype Names = Names(roles: set<string>, permissions: set<string>)

  const GLOBAL: string := "__global__"

  // select ... limit 1
  function First<T>(rows: seq<T>, keep: T -> bool): (row: Option<T>)
    ensures row.Some? ==> row.value in rows && keep(row.value)
    ensures row.None? ==> forall r :: r in rows ==> !keep(r)
  {
    if rows == [] then None else if keep(rows[0]) then Some(rows[0]) else First(rows[1..], keep)
  }

  // ----- the joined statement -----

  predicate ScopedRows(db: Database, org: string, kind: string, role: string) {
    exists p :: p in db.policies && p.org == org && p.kind == kind && p.role == role
  }

  function PolicyScope(db: Database, org: string, kind: string, role: string): string {
    if ScopedRows(db, org, kind, role) then org else GLOBAL
  }

  predicate JoinsGroup(a: AssignmentRow, g: MemberRow, user: string) {
    g.of == a.group && g.user == user && g.active
  }

  predicate JoinsRole(a: AssignmentRow, m: RoleRow, user: string) {
    m.assignment == a.id && m.user == user && m.active
  }

  predicate JoinsPolicy(p: PolicyRow, scope: string, kind: string, role: string, permission: string) {
    p.org == scope && p.kind == kind && p.role == role && p.permission == permission && p.active
  }

  // _accessible_resource_ids_statement: assignments joined with group members, member roles
  // and policies.
  function AccessibleIds(db: Database, user: string, org: string, kind: string, permission: string): set<string> {
    set a, g, m, p |
      && a in db.assignments && a.org == org && a.kind == kind && a.active
      && g in db.groupMembers && JoinsGroup(a, g, user)
      && m in db.memberRoles && JoinsRole(a, m, user)
      && p in db.policies && JoinsPolicy(p, PolicyScope(db, org, kind, m.role), kind, m.role, permission)
      :: a.resource
  }

  datatype Ids = EveryResource | Only(ids: set<string>)

  // accessible_resource_ids: an unknown permission raises, unless the user is an administrator.
  function AccessibleResourceIds(names: Names, db: Database, user: string, org: string, kind: string, permission: string): Option<Ids> {
    if user in db.admins then Some(EveryResource)
    else if permission !in names.permissions then None
    else Some(Only(AccessibleIds(db, user, org, kind, permission)))
  }

  // ----- the step-by-step check -----

  function GetMember(rows: seq<MemberRow>, of: string, user: string): Option<MemberRow> {
    First(rows, (g: MemberRow) => g.of == of && g.user == user && g.active)
  }

  function GetAssignment(db: Database, org: string, kind: string, resource: string): Option<AssignmentRow> {
    First(db.assignments, (a: AssignmentRow) => a.org == org && a.kind == kind && a.resource == resource && a.active)
  }

  function GetMemberRole(db: Database, assignment: string, user: string): Option<RoleRow> {
    First(db.memberRoles, (m: RoleRow) => m.assignment == assignment && m.user == user && m.active)
  }

  // get_role_permissions: an empty organization means the global policy.
  function GetRolePermissions(names: Names, db: Database, kind: string, role: string, org: string): Option<set<string>> {
    if role !in names.roles then None
    else
      var scope := if org == "" then GLOBAL else org;
      var chosen := if ScopedRows(db, scope, kind, role) then scope else GLOBAL;
      Some(set p | p in db.policies && p.org == chosen && p.kind == kind && p.role == role && p.active :: p.permission)
  }

  // The role through which a user reaches a resource, if any.
  function RoleOn(db: Database, user: string, org: string, kind: string, resource: string): Option<string> {
    if GetMember(db.orgMembers, org, user).None? then None
    else
      var assignment := GetAssignment(db, org, kind, resource);
      if assignment.None? then None
      else if GetMember(db.groupMembers, assignment.value.group, user).None? then None
      else
        var member := GetMemberRole(db, assignment.value.id, user);
        if member.None? then None else Some(member.value.role)
  }

  function CanAccess(names: Names, db: Database, user: string, org: string, kind: string, resource: string,
                     permission: string): Option<bool> {
    if user in db.admins then Some(true)
    else
      var role := RoleOn(db, user, org, kind, resource);
      if role.None? then Some(false)
      else if permission !in names.permissions then None
      else
        var permissions := GetRolePermissions(names, db, kind, role.value, org);
        if permissions.None? then None else Some(permission in permissions.value)
  }

  function EffectivePermissions(names: Names, db: Database, user: string, org: string, kind: string,
                                resource: string): Option<set<string>> {
    if user in db.admins then Some(names.permissions)
    else
      var role := RoleOn(db, user, org, kind, resource);
      if role.None? then Some({}) else GetRolePermissions(names, db, kind, role.value, org)
  }

  // ----- the statement refines the check -----

  // The rows the join needs for one resource: some group membership and policy, beside the
  // assignment and the member role.
  ghost predicate Linked(db: Database, a: AssignmentRow, m: RoleRow, user: string, org: string, kind: string, permission: string) {
    && (exists g :: g in db.groupMembers && JoinsGroup(a, g, user))
    && Grants(db, PolicyScope(db, org, kind, m.role), kind, m.role, permission)
  }

  ghost predicate Grants(db: Database, scope: string, kind: string, role: string, permission: string) {
    exists p :: p in db.policies && JoinsPolicy(p, scope, kind, role, permission)
  }

  ghost predicate Places(db: Database, a: AssignmentRow, m: RoleRow, user: string, org: string, kind: string, resource: string) {
    && a in db.assignments && a.org == org && a.kind == kind && a.resource == resource && a.active
    && m in db.memberRoles && JoinsRole(a, m, user)
  }

  lemma ListedIff(db: Database, user: string, org: string, kind: string, resource: string, permission: string)
    ensures resource in AccessibleIds(db, user, org, kind, permission) <==>
      exists a, m :: Places(db, a, m, user, org, kind, resource) && Linked(db, a, m, user, org, kind, permission)
  {
    if a, m :| Places(db, a, m, user, org, kind, resource) && Linked(db, a, m, user, org, kind, permission) {
      var g :| g in db.groupMembers && JoinsGroup(a, g, user);
      var p :| p in db.policies && JoinsPolicy(p, PolicyScope(db, org, kind, m.role), kind, m.role, permission);
      assert a.resource in AccessibleIds(db, user, org, kind, permission);
    }
    if resource in AccessibleIds(db, user, org, kind, permission) {
      var a, g, m, p :|
        && a in db.assignments && a.org == org && a.kind == kind && a.active && a.resource == resource
        && g in db.groupMembers && JoinsGroup(a, g, user)
        && m in db.memberRoles && JoinsRole(a, m, user)
        && p in db.policies && JoinsPolicy(p, PolicyScope(db, org, kind, m.role), kind, m.role, permission);
      assert Places(db, a, m, user, org, kind, resource) && Linked(db, a, m, user, org, kind, permission);
    }
  }

  // Under the unique constraints there is at most one such pair, and the check finds it.
  lemma PlacedIsFound(db: Database, a: AssignmentRow, m: RoleRow, user: string, org: string, kind: string, resource: string)
    requires Constrained(db) && Places(db, a, m, user, org, kind, resource)
    ensures GetAssignment(db, org, kind, resource) == Some(a) && GetMemberRole(db, a.id, user) == Some(m)
  {
  }

  lemma FoundIsPlaced(db: Database, user: string, org: string, kind: string, resource: string)
    requires GetAssignment(db, org, kind, resource).Some?
    requires GetMemberRole(db, GetAssignment(db, org, kind, resource).value.id, user).Some?
    ensures var a := GetAssignment(db, org, kind, resource).value;
            Places(db, a, GetMemberRole(db, a.id, user).value, user, org, kind, resource)
  {
  }

  // The check reads an empty organization as the global scope and the statement does not; the
  // two scopes agree unless policy rows are stored for the empty organization.
  ghost predicate ProperScope(db: Database, org: string) {
    org == "" ==> forall p :: p in db.policies ==> p.org != ""
  }

  // Every role stored for a member is one of the enumeration.
  ghost predicate KnownRoles(names: Names, db: Database) {
    forall m :: m in db.memberRoles ==> m.role in names.roles
  }

  lemma PermittedIff(names: Names, db: Database, kind: string, role: string, org: string, permission: string)
    requires role in names.roles && ProperScope(db, org)
    ensures permission in GetRolePermissions(names, db, kind, role, org).value <==>
            Grants(db, PolicyScope(db, org, kind, role), kind, role, permission)
  {
    var scope := PolicyScope(db, org, kind, role);
    if p :| p in db.policies && JoinsPolicy(p, scope, kind, role, permission) {
      assert p.permission == permission;
    }
    if permission in GetRolePermissions(names, db, kind, role, org).value {
      var p :| p in db.policies && p.org == scope && p.kind == kind && p.role == role && p.active && p.permission == permission;
      assert JoinsPolicy(p, scope, kind, role, permission);
    }
  }

  // A role was found through the very rows the join uses.
  lemma RoleOnIff(db: Database, user: string, org: string, kind: string, resource: string, a: AssignmentRow, m: RoleRow)
    requires Constrained(db) && Places(db, a, m, user, org, kind, resource)
    ensures RoleOn(db, user, org, kind, resource) ==
            if GetMember(db.orgMembers, org, user).Some? && exists g :: g in db.groupMembers && JoinsGroup(a, g, user)
            then Some(m.role) else None
  {
    PlacedIsFound(db, a, m, user, org, kind, resource);
    if g :| g in db.groupMembers && JoinsGroup(a, g, user) {
      assert GetMember(db.groupMembers, a.group, user).Some?;
    }
  }

  // For any user who is no administrator: the check passes exactly for the listed resources of
  // an active organization member.
  lemma StatementRefinesCheck(names: Names, db: Database, user: string, org: string, kind: string, resource: string, permission: string)
    requires Constrained(db) && KnownRoles(names, db) && ProperScope(db, org)
    requires user !in db.admins && permission in names.permissions
    ensures CanAccess(names, db, user, org, kind, resource, permission) ==
            Some(GetMember(db.orgMembers, org, user).Some? && resource in AccessibleIds(db, user, org, kind, permission))
  {
    ListedIff(db, user, org, kind, resource, permission);
    if a, m :| Places(db, a, m, user, org, kind, resource) {
      PlacedIsFound(db, a, m, user, org, kind, resource);
      RoleOnIff(db, user, org, kind, resource, a, m);
      PermittedIff(names, db, kind, m.role, org, permission);
      forall b, n | Places(db, b, n, user, org, kind, resource)
        ensures b == a && n == m
      {
        PlacedIsFound(db, b, n, user, org, kind, resource);
      }
    } else if RoleOn(db, user, org, kind, resource).Some? {
      FoundIsPlaced(db, user, org, kind, resource);
    }
  }

  // The whole query against the check, for any user: an administrator is refused nothing and
  // listed everything, an unknown permission is rejected, and otherwise the listed resources are
  // those that pass once the organization membership is active.
  lemma AccessibleRefinesCheck(names: Names, db: Database, user: string, org: string, kind: string, resource: string, permission: string)
    requires Constrained(db) && KnownRoles(names, db) && ProperScope(db, org)
    ensures var listed, checked := AccessibleResourceIds(names, db, user, org, kind, permission),
                                   CanAccess(names, db, user, org, kind, resource, permission);
            && (user in db.admins <==> listed == Some(EveryResource))
            && (user in db.admins ==> checked == Some(true))
            && (listed.None? <==> user !in db.admins && permission !in names.permissions)
            && (listed.None? ==> checked != Some(true))
            && (listed.Some? && listed.value.Only? ==>
                  checked == Some(GetMember(db.orgMembers, org, user).Some? && resource in listed.value.ids))
  {
    if user !in db.admins && permission in names.permissions {
      StatementRefinesCheck(names, db, user, org, kind, resource, permission);
    }
  }

  // Some rows link the user to some resource of the kind.
  ghost predicate LinksSome(db: Database, user: string, org: string, kind: string, permission: string) {
    exists a: AssignmentRow, m: RoleRow :: Places(db, a, m, user, org, kind, a.resource) && Linked(db, a, m, user, org, kind, permission)
  }

  // The statement itself never looks at the organization membership: it agrees with the check on
  // all resources exactly when the user is an active member, or no assignment, member role, group
  // membership and policy rows link the user to anything.
  lemma AgreeIff(names: Names, db: Database, user: string, org: string, kind: string, permission: string)
    requires Constrained(db) && KnownRoles(names, db) && ProperScope(db, org)
    requires user !in db.admins && permission in names.permissions
    ensures (forall resource :: CanAccess(names, db, user, org, kind, resource, permission) == Some(true) <==>
                                resource in AccessibleIds(db, user, org, kind, permission))
      <==> GetMember(db.orgMembers, org, user).Some? || !LinksSome(db, user, org, kind, permission)
  {
    forall resource
      ensures CanAccess(names, db, user, org, kind, resource, permission) ==
              Some(GetMember(db.orgMembers, org, user).Some? && resource in AccessibleIds(db, user, org, kind, permission))
      ensures resource in AccessibleIds(db, user, org, kind, permission) ==> LinksSome(db, user, org, kind, permission)
    {
      StatementRefinesCheck(names, db, user, org, kind, resource, permission);
      ListedIff(db, user, org, kind, resource, permission);
      if resource in AccessibleIds(db, user, org, kind, permission) {
        var a, m :| Places(db, a, m, user, org, kind, resource) && Linked(db, a, m, user, org, kind, permission);
        assert a.resource == resource;
      }
    }
    if LinksSome(db, user, org, kind, permission) {
      var a: AssignmentRow, m: RoleRow :| Places(db, a, m, user, org, kind, a.resource) && Linked(db, a, m, user, org, kind, permission);
      ListedIff(db, user, org, kind, a.resource, permission);
    }
  }

  // One assignment with its group membership, member role and policy, and further assignments
  // listed before it.
  function Granted(org: string, user: string, role: string, permission: string, member: bool, before: seq<AssignmentRow>): Database {
    Database({}, [MemberRow(org, user, member)], [MemberRow("g", user, true)], before + [AssignmentRow("a", org, "g", "k", "r", true)],
             [RoleRow("a", user, role, true)], [PolicyRow(org, "k", role, permission, true)])
  }

  lemma GrantedIsListed(org: string, user: string, role: string, permission: string, member: bool, before: seq<AssignmentRow>)
    ensures "r" in AccessibleIds(Granted(org, user, role, permission, member, before), user, org, "k", permission)
  {
    var db := Granted(org, user, role, permission, member, before);
    var a, m := AssignmentRow("a", org, "g", "k", "r", true), RoleRow("a", user, role, true);
    var g, p := MemberRow("g", user, true), PolicyRow(org, "k", role, permission, true);
    assert p in db.policies && ScopedRows(db, org, "k", role);
    assert a in db.assignments && m in db.memberRoles && g in db.groupMembers;
    assert JoinsPolicy(p, org, "k", role, permission) && JoinsGroup(a, g, user);
    assert Places(db, a, m, user, org, "k", "r") && Linked(db, a, m, user, org, "k", permission);
    ListedIff(db, user, org, "k", "r", permission);
  }

  // A former organization member whose group and role rows are still active.
  lemma FormerMemberStillListed(names: Names, org: string, user: string, role: string, permission: string)
    requires role in names.roles && permission in names.permissions
    ensures var db := Granted(org, user, role, permission, false, []);
      && Constrained(db) && KnownRoles(names, db) && user !in db.admins
      && "r" in AccessibleIds(db, user, org, "k", permission)
      && CanAccess(names, db, user, org, "k", "r", permission) == Some(false)
  {
    GrantedIsListed(org, user, role, permission, false, []);
  }

  // The unique constraint on assignments is needed: with two assignments of one resource the
  // check looks at the first only, and the statement at both.
  lemma DuplicateAssignmentsDiffer(names: Names, org: string, user: string, role: string, permission: string)
    requires role in names.roles && permission in names.permissions
    ensures var other := AssignmentRow("b", org, "h", "k", "r", true);
      var db := Granted(org, user, role, permission, true, [other]);
      && !Constrained(db) && KnownRoles(names, db) && user !in db.admins
      && "r" in AccessibleIds(db, user, org, "k", permission)
      && CanAccess(names, db, user, org, "k", "r", permission) == Some(false)
  {
    var other := AssignmentRow("b", org, "h", "k", "r", true);
    var db := Granted(org, user, role, permission, true, [other]);
    GrantedIsListed(org, user, role, permission, true, [other]);
    assert db.assignments[0] == other && db.assignments[1] == AssignmentRow("a", org, "g", "k", "r", true);
    assert GetAssignment(db, org, "k", "r") == Some(other);
  }

  // The check passes exactly for the effective permissions.
  lemma EffectiveIsExact(names: Names, db: Database, user: string, org: string, kind: string, resource: string, permission: string)
    requires permission in names.permissions
    ensures CanAccess(names, db, user, org, kind, resource, permission).None? <==>
            EffectivePermissions(names, db, user, org, kind, resource).None?
    ensures EffectivePermissions(names, db, user, org, kind, resource).Some? ==>
      (CanAccess(names, db, user, org, kind, resource, permission) == Some(true) <==>
       permission in EffectivePermissions(names, db, user, org, kind, resource).value)
  {
  }

  // So the effective permissions of a resource are those whose statement lists it, once the
  // organization membership is active.
  lemma EffectiveAreListed(names: Names, db: Database, user: string, org: string, kind: string, resource: string, permission: string)
    requires Constrained(db) && KnownRoles(names, db) && ProperScope(db, org)
    requires user !in db.admins && permission in names.permissions
    ensures EffectivePermissions(names, db, user, org, kind, resource).Some?
    ensures permission in EffectivePermissions(names, db, user, org, kind, resource).value <==>
            GetMember(db.orgMembers, org, user).Some? && resource in AccessibleIds(db, user, org, kind, permission)
  {
    StatementRefinesCheck(names, db, user, org, kind, resource, permission);
    EffectiveIsExact(names, db, user, org, kind, resource, permission);
  }

  // ----- any scoped policy row hides the global policy -----

  // Two databases that differ at most in their global policy rows.
  ghost predicate SameButGlobal(db: Database, db': Database) {
    && db' == db.(policies := db'.policies)
    && forall p: PolicyRow :: p.org != GLOBAL ==> (p in db.policies <==> p in db'.policies)
  }

  lemma ScopedGrantsSame(db: Database, db': Database, org: string, kind: string, role: string, permission: string)
    requires SameButGlobal(db, db') && org != GLOBAL && ScopedRows(db, org, kind, role)
    ensures PolicyScope(db, org, kind, role) == org == PolicyScope(db', org, kind, role)
    ensures Grants(db, org, kind, role, permission) <==> Grants(db', org, kind, role, permission)
  {
    var p :| p in db.policies && p.org == org && p.kind == kind && p.role == role;
    assert p in db'.policies;
    if q :| q in db.policies && JoinsPolicy(q, org, kind, role, permission) {
      assert q in db'.policies;
    }
    if q :| q in db'.policies && JoinsPolicy(q, org, kind, role, permission) {
      assert q in db.policies;
    }
  }

  lemma ScopedLinksSame(db: Database, db': Database, a: AssignmentRow, m: RoleRow, user: string, org: string,
                        kind: string, permission: string)
    requires SameButGlobal(db, db') && org != GLOBAL && ScopedRows(db, org, kind, m.role)
    ensures Linked(db, a, m, user, org, kind, permission) <==> Linked(db', a, m, user, org, kind, permission)
  {
    ScopedGrantsSame(db, db', org, kind, m.role, permission);
  }

  // With one scoped row, even disabled, for the user's role, no change of the global policy
  // changes what the statement lists or what the user may do.
  lemma ScopedHidesGlobal(db: Database, db': Database, user: string, org: string, kind: string, resource: string, permission: string)
    requires SameButGlobal(db, db') && org != GLOBAL
    requires forall m :: m in db.memberRoles && m.user == user ==> ScopedRows(db, org, kind, m.role)
    ensures resource in AccessibleIds(db, user, org, kind, permission) <==> resource in AccessibleIds(db', user, org, kind, permission)
  {
    ListedIff(db, user, org, kind, resource, permission);
    ListedIff(db', user, org, kind, resource, permission);
    forall a, m | Places(db, a, m, user, org, kind, resource)
      ensures Places(db', a, m, user, org, kind, resource)
      ensures Linked(db, a, m, user, org, kind, permission) <==> Linked(db', a, m, user, org, kind, permission)
    {
      ScopedLinksSame(db, db', a, m, user, org, kind, permission);
    }
    assert forall a, m :: Places(db', a, m, user, org, kind, resource) ==> Places(db, a, m, user, org, kind, resource);
  }

  lemma ScopedHidesGlobalFromCheck(names: Names, db: Database, db': Database, user: string, org: string, kind: string,
                                   resource: string, permission: string)
    requires Constrained(db) && KnownRoles(names, db) && ProperScope(db, org) && ProperScope(db', org)
    requires SameButGlobal(db, db') && org != GLOBAL && permission in names.permissions
    requires forall m :: m in db.memberRoles && m.user == user ==> ScopedRows(db, org, kind, m.role)
    ensures CanAccess(names, db, user, org, kind, resource, permission) == CanAccess(names, db', user, org, kind, resource, permission)
  {
    if user !in db.admins {
      ScopedHidesGlobal(db, db', user, org, kind, resource, permission);
      StatementRefinesCheck(names, db, user, org, kind, resource, permission);
      StatementRefinesCheck(names, db', user, org, kind, resource, permission);
    }
  }

  // A scoped policy with every row disabled denies everything, whatever the global policy says.
  lemma DisabledScopeDenies(names: Names, db: Database, user: string, org: string, kind: string, resource: string, permission: string)
    requires Constrained(db) && KnownRoles(names, db) && ProperScope(db, org)
    requires user !in db.admins && permission in names.permissions
    requires RoleOn(db, user, org, kind, resource).Some?
    requires var role := RoleOn(db, user, org, kind, resource).value;
      && ScopedRows(db, org, kind, role)
      && forall p :: p in db.policies && p.org == org && p.kind == kind && p.role == role ==> !p.active
    ensures CanAccess(names, db, user, org, kind, resource, permission) == Some(false)
    ensures resource !in AccessibleIds(db, user, org, kind, permission)
  {
    FoundIsPlaced(db, user, org, kind, resource);
    var role := RoleOn(db, user, org, kind, resource).value;
    PermittedIff(names, db, kind, role, org, permission);
    StatementRefinesCheck(names, db, user, org, kind, resource, permission);
  }
}
