/** The RBAC evaluator: scopes, deny-first evaluation, role inheritance, memo and assignment cache. */
module Rbac {
  import opened Basics

  /*** Scopes ***/

  datatype Scope = Scope(kind: string, id: string)

  const PLATFORM_SCOPE := Scope("PLATFORM", "platform")

  /** The position of a scope type in the containment order, -1 for an unknown type. */
  function Level(kind: string): int {
    if kind == "PLATFORM" then 0
    else if kind == "TENANT" then 1
    else if kind == "TEAM" then 2
    else if kind == "NAMESPACE" then 3
    else -1
  }

  predicate Contains(outer: Scope, inner: Scope) {
    if outer.kind == "PLATFORM" then true
    else if Level(outer.kind) < 0 || Level(inner.kind) < 0 then false
    else if Level(outer.kind) > Level(inner.kind) then false
    else if outer.kind == inner.kind then outer.id == inner.id
    else true
  }

  lemma ContainmentIsTransitive(a: Scope, b: Scope, c: Scope)
    requires Contains(a, b) && Contains(b, c)
    ensures Contains(a, c)
  {}

  /** A scope contains itself exactly when its type is known, and two contain each other only if equal or platform. */
  lemma ContainmentIsAlmostAnOrder(a: Scope, b: Scope)
    ensures Contains(a, a) <==> Level(a.kind) >= 0
    ensures Contains(a, b) && Contains(b, a) <==>
      (a.kind == b.kind == "PLATFORM") || (a == b && Level(a.kind) >= 0)
  {}

  /** Containment by the names of the scope types. */
  lemma ContainsIffBroader(outer: Scope, inner: Scope)
    ensures Contains(outer, inner) <==>
      || outer.kind == "PLATFORM"
      || (outer == inner && outer.kind in {"TENANT", "TEAM", "NAMESPACE"})
      || (outer.kind == "TENANT" && inner.kind in {"TEAM", "NAMESPACE"})
      || (outer.kind == "TEAM" && inner.kind == "NAMESPACE")
  {}

  /** The parent of each scope: a namespace's team, a team's tenant. */
  type Hierarchy = Scope -> Option<Scope>

  function Ancestor(h: Hierarchy, s: Scope, steps: nat): Option<Scope>
    decreases steps
  {
    if steps == 0 then Some(s)
    else match h(s) case None => None case Some(parent) => Ancestor(h, parent, steps - 1)
  }

  /** A tenant against a team or namespace, or a team against a namespace. */
  predicate CrossesTypes(outer: Scope, inner: Scope) {
    || (outer.kind == "TENANT" && inner.kind in {"TEAM", "NAMESPACE"})
    || (outer.kind == "TEAM" && inner.kind == "NAMESPACE")
  }

  /**
   Containment as it is documented: the platform contains everything, a tenant its own teams and
   namespaces, a team its own namespaces, and a scope of a known type itself.
   */
  ghost predicate Documented(h: Hierarchy, outer: Scope, inner: Scope) {
    || outer.kind == "PLATFORM"
    || (outer == inner && outer.kind in {"TENANT", "TEAM", "NAMESPACE"})
    || (CrossesTypes(outer, inner) && exists steps: nat :: Ancestor(h, inner, steps) == Some(outer))
  }

  /**
   Whatever the hierarchy, containment includes the documented relation. It is the documented relation
   in every hierarchy exactly when it does not go from a tenant to a team or namespace, or from a team to
   a namespace; between such scopes the ids are never compared.
   */
  lemma ContainmentIsDocumentedIff(outer: Scope, inner: Scope)
    ensures forall h: Hierarchy :: Documented(h, outer, inner) ==> Contains(outer, inner)
    ensures (forall h: Hierarchy :: Contains(outer, inner) <==> Documented(h, outer, inner)) <==>
      !CrossesTypes(outer, inner)
  {
    if CrossesTypes(outer, inner) {
      var flat: Hierarchy := _ => None;
      assert forall steps: nat :: Ancestor(flat, inner, steps) == if steps == 0 then Some(inner) else None;
      assert !Documented(flat, outer, inner);
    }
  }

  /*** Tables ***/

  /** Role names are not unique: one name may label several rows. */
  datatype Role = Role(id: string, name: string, permissions: set<string>, inheritsFrom: Option<string>)

  /** An assignment row joined with its role, as the principal's direct or team-inherited grant. */
  datatype Assignment = Assignment(
    id: string, roleId: string, roleName: string, scope: Scope, source: string, expiresAt: Option<int>)

  datatype DenyRow = DenyRow(
    id: string, principal: string, permission: string, scope: Scope, reason: string, expiresAt: Option<int>)

  /** A role granted to a principal or a team; team members inherit it. */
  datatype GrantRow = GrantRow(
    id: string, holder: string, roleId: string, scope: Scope, revoked: bool, expiresAt: Option<int>)

  datatype Membership = Membership(principal: string, team: string)

  datatype Database = Database(
    roles: seq<Role>, grants: seq<GrantRow>, memberships: seq<Membership>, denies: seq<DenyRow>)

  /*** The query that joins a principal's own grants, its teams' grants and their roles ***/

  function Joined(g: GrantRow, role: Role, source: string): Assignment {
    Assignment(g.id, role.id, role.name, g.scope, source, g.expiresAt)
  }

  function JoinRoles(roles: seq<Role>, g: GrantRow, source: string): seq<Assignment> {
    if roles == [] then []
    else (if roles[0].id == g.roleId then [Joined(g, roles[0], source)] else []) + JoinRoles(roles[1..], g, source)
  }

  /** The unrevoked grants of one holder, joined with their roles. */
  function HeldBy(roles: seq<Role>, grants: seq<GrantRow>, holder: string, source: string): seq<Assignment> {
    if grants == [] then []
    else
      (if grants[0].holder == holder && !grants[0].revoked then JoinRoles(roles, grants[0], source) else [])
        + HeldBy(roles, grants[1..], holder, source)
  }

  function HeldByTeams(roles: seq<Role>, grants: seq<GrantRow>, memberships: seq<Membership>, principal: string)
    : seq<Assignment>
  {
    if memberships == [] then []
    else
      (if memberships[0].principal == principal
       then HeldBy(roles, grants, memberships[0].team, "team:" + memberships[0].team) else [])
        + HeldByTeams(roles, grants, memberships[1..], principal)
  }

  function DeniesOf(denies: seq<DenyRow>, principal: string): seq<DenyRow> {
    if denies == [] then []
    else (if denies[0].principal == principal then [denies[0]] else []) + DeniesOf(denies[1..], principal)
  }

  /** What one evaluation reads for its principal. */
  datatype Tables = Tables(roles: seq<Role>, assignments: seq<Assignment>, denies: seq<DenyRow>)

  function TablesOf(db: Database, principal: string): Tables {
    Tables(db.roles,
           HeldBy(db.roles, db.grants, principal, "direct") + HeldByTeams(db.roles, db.grants, db.memberships, principal),
           DeniesOf(db.denies, principal))
  }

  /** The holder has this unrevoked grant of this role. */
  predicate GivenBy(db: Database, g: GrantRow, role: Role, holder: string) {
    g in db.grants && role in db.roles && role.id == g.roleId && g.holder == holder && !g.revoked
  }

  lemma {:induction false} JoinedRoles(roles: seq<Role>, g: GrantRow, source: string, a: Assignment)
    ensures a in JoinRoles(roles, g, source) <==>
      exists role :: role in roles && role.id == g.roleId && a == Joined(g, role, source)
  {
    if roles != [] {
      JoinedRoles(roles[1..], g, source, a);
      assert forall role :: role in roles <==> role == roles[0] || role in roles[1..];
    }
  }

  lemma {:induction false} HeldRows(db: Database, grants: seq<GrantRow>, holder: string, source: string, a: Assignment)
    requires forall g :: g in grants ==> g in db.grants
    ensures a in HeldBy(db.roles, grants, holder, source) <==>
      exists g, role :: g in grants && GivenBy(db, g, role, holder) && a == Joined(g, role, source)
  {
    if grants != [] {
      HeldRows(db, grants[1..], holder, source, a);
      JoinedRoles(db.roles, grants[0], source, a);
      assert forall g :: g in grants <==> g == grants[0] || g in grants[1..];
    }
  }

  lemma {:induction false} TeamRows(db: Database, memberships: seq<Membership>, principal: string, a: Assignment)
    ensures a in HeldByTeams(db.roles, db.grants, memberships, principal) <==>
      exists m :: m in memberships && m.principal == principal
        && a in HeldBy(db.roles, db.grants, m.team, "team:" + m.team)
  {
    if memberships != [] {
      TeamRows(db, memberships[1..], principal, a);
      assert forall m :: m in memberships <==> m == memberships[0] || m in memberships[1..];
    }
  }

  lemma {:induction false} DenyRows(denies: seq<DenyRow>, principal: string, d: DenyRow)
    ensures d in DeniesOf(denies, principal) <==> d in denies && d.principal == principal
  {
    if denies != [] {
      DenyRows(denies[1..], principal, d);
      assert d in denies <==> d == denies[0] || d in denies[1..];
    }
  }

  /** The source label of a grant: the principal's own, or that of a team it belongs to. */
  ghost predicate Reaches(db: Database, holder: string, principal: string, source: string) {
    || (holder == principal && source == "direct")
    || (exists m :: m in db.memberships && m == Membership(principal, holder) && source == "team:" + holder)
  }

  /** The query returns exactly the unrevoked grants of the principal and of its teams, joined with their roles. */
  lemma AssignmentsAreJoined(db: Database, principal: string, a: Assignment)
    ensures a in TablesOf(db, principal).assignments <==>
      exists g: GrantRow, role: Role :: GivenBy(db, g, role, g.holder) && Reaches(db, g.holder, principal, a.source)
        && a == Assignment(g.id, role.id, role.name, g.scope, a.source, g.expiresAt)
  {
    HeldRows(db, db.grants, principal, "direct", a);
    TeamRows(db, db.memberships, principal, a);
    forall m | m in db.memberships ensures a in HeldBy(db.roles, db.grants, m.team, "team:" + m.team) <==>
      exists g: GrantRow, role: Role :: GivenBy(db, g, role, m.team) && a == Joined(g, role, "team:" + m.team)
    {
      HeldRows(db, db.grants, m.team, "team:" + m.team, a);
    }
    if g: GrantRow, role: Role :| GivenBy(db, g, role, g.holder) && Reaches(db, g.holder, principal, a.source) && a == Joined(g, role, a.source) {
      if a.source != "direct" || g.holder != principal {
        var m := Membership(principal, g.holder);
        assert m in db.memberships && GivenBy(db, g, role, m.team);
      }
    }
  }

  predicate ExpiredAt(expiresAt: Option<int>, now: int) {
    expiresAt.Some? && expiresAt.value < now
  }

  /*** Role expansion: the recursive query, level by level ***/

  function ParentsOf(roles: seq<Role>, names: set<string>): set<string> {
    set r | r in roles && r.name in names && r.inheritsFrom.Some? :: r.inheritsFrom.value
  }

  function OwnPermissions(roles: seq<Role>, names: set<string>): set<string> {
    set r, p | r in roles && r.name in names && p in r.permissions :: p
  }

  function NamesAt(roles: seq<Role>, name: string, level: nat): set<string> {
    if level == 0 then {name} else ParentsOf(roles, NamesAt(roles, name, level - 1))
  }

  /** The query stops: some level of the inheritance chain of `name` is empty. */
  ghost predicate Halts(roles: seq<Role>, name: string) {
    exists level: nat :: NamesAt(roles, name, level) == {}
  }

  /** `name` reaches a role name that inherits from itself through one or more steps. */
  ghost predicate ReachesCycle(roles: seq<Role>, name: string) {
    exists n, i: nat, around: nat :: around > 0 && n in NamesAt(roles, name, i) && n in NamesAt(roles, n, around)
  }

  /** `p` is a permission of some role reached from `name` by zero or more inheritance steps. */
  ghost predicate Grants(roles: seq<Role>, name: string, p: string) {
    exists level: nat :: p in OwnPermissions(roles, NamesAt(roles, name, level))
  }

  /** The recursive query. Without a level that is empty the database would not return from it. */
  method ExpandRole(roles: seq<Role>, name: string) returns (perms: set<string>)
    requires Halts(roles, name)
    ensures forall p :: p in perms <==> Grants(roles, name, p)
  {
    perms := {};
    var names := {name};
    ghost var last: nat :| NamesAt(roles, name, last) == {};
    ghost var level: nat := 0;
    while names != {}
      invariant names == NamesAt(roles, name, level)
      invariant level <= last
      invariant forall p :: p in perms <==> exists k :: 0 <= k < level && p in OwnPermissions(roles, NamesAt(roles, name, k))
      decreases last - level
    {
      perms := perms + OwnPermissions(roles, names);
      names := ParentsOf(roles, names);
      level := level + 1;
    }
    forall p | Grants(roles, name, p) ensures p in perms {
      var k: nat :| p in OwnPermissions(roles, NamesAt(roles, name, k));
      if k >= level {
        EmptyLevelsStayEmpty(roles, name, level, k);
      }
    }
  }

  lemma {:induction false} EmptyLevelsStayEmpty(roles: seq<Role>, name: string, level: nat, k: nat)
    requires NamesAt(roles, name, level) == {} && level <= k
    ensures NamesAt(roles, name, k) == {}
  {
    if level < k {
      EmptyLevelsStayEmpty(roles, name, level, k - 1);
    }
  }

  /** Names `from` reaches in exactly `steps` inheritance steps are reached from its predecessors one later. */
  lemma {:induction false} LevelsCompose(roles: seq<Role>, a: string, b: string, i: nat, j: nat)
    requires b in NamesAt(roles, a, i)
    ensures NamesAt(roles, b, j) <= NamesAt(roles, a, i + j)
  {
    if j > 0 {
      LevelsCompose(roles, a, b, i, j - 1);
      assert NamesAt(roles, a, i + j) == ParentsOf(roles, NamesAt(roles, a, i + (j - 1)));
    }
  }

  lemma {:induction false} CyclesNeverFinish(roles: seq<Role>, n: string, around: nat, k: nat)
    requires around > 0 && n in NamesAt(roles, n, around)
    ensures n in NamesAt(roles, n, k * around)
  {
    if k > 0 {
      CyclesNeverFinish(roles, n, around, k - 1);
      LevelsCompose(roles, n, n, (k - 1) * around, around);
      assert (k - 1) * around + around == k * around;
    }
  }

  /** A chain of names, each the parent of the one before. */
  ghost predicate IsChain(roles: seq<Role>, chain: seq<string>) {
    forall i :: 0 <= i < |chain| - 1 ==> chain[i + 1] in ParentsOf(roles, {chain[i]})
  }

  lemma {:induction false} ChainTo(roles: seq<Role>, name: string, level: nat, n: string) returns (chain: seq<string>)
    requires n in NamesAt(roles, name, level)
    ensures |chain| == level + 1 && chain[0] == name && chain[level] == n && IsChain(roles, chain)
  {
    if level == 0 {
      chain := [name];
    } else {
      var r :| r in roles && r.name in NamesAt(roles, name, level - 1) && r.inheritsFrom == Some(n);
      var before := ChainTo(roles, name, level - 1, r.name);
      chain := before + [n];
      assert n in ParentsOf(roles, {r.name});
    }
  }

  lemma {:induction false} ChainReaches(roles: seq<Role>, chain: seq<string>, i: nat, j: nat)
    requires IsChain(roles, chain) && i <= j < |chain|
    ensures chain[j] in NamesAt(roles, chain[i], j - i)
  {
    if i < j {
      ChainReaches(roles, chain, i, j - 1);
      assert chain[j - 1 + 1] in ParentsOf(roles, {chain[j - 1]});
    }
  }

  /** More positions than values: some value repeats. */
  lemma {:induction false} Pigeonhole(s: seq<string>, values: set<string>) returns (i: nat, j: nat)
    requires |s| > |values| && forall x :: x in s ==> x in values
    ensures i < j < |s| && s[i] == s[j]
    decreases |s|
  {
    var last := |s| - 1;
    if k :| 0 <= k < last && s[k] == s[last] {
      i, j := k, last;
    } else {
      assert s[last] in values;
      assert |values - {s[last]}| == |values| - 1;
      assert forall x :: x in s[..last] ==> x in s;
      i, j := Pigeonhole(s[..last], values - {s[last]});
    }
  }

  lemma ChainStaysAmongNames(roles: seq<Role>, chain: seq<string>)
    requires chain != [] && IsChain(roles, chain)
    ensures var names := {chain[0]} + set r | r in roles && r.inheritsFrom.Some? :: r.inheritsFrom.value;
      forall x :: x in chain ==> x in names
  {
    forall i | 0 < i < |chain|
      ensures exists r :: r in roles && r.inheritsFrom == Some(chain[i])
    {
      assert chain[i - 1 + 1] in ParentsOf(roles, {chain[i - 1]});
    }
  }

  /** The recursive query of a role name stops exactly when the name reaches no inheritance cycle. */
  lemma ExpansionStopsIffAcyclic(roles: seq<Role>, name: string)
    ensures Halts(roles, name) <==> !ReachesCycle(roles, name)
  {
    if ReachesCycle(roles, name) {
      var n, i: nat, around: nat :| around > 0 && n in NamesAt(roles, name, i) && n in NamesAt(roles, n, around);
      forall level: nat ensures NamesAt(roles, name, level) != {} {
        CyclesNeverFinish(roles, n, around, level);
        LevelsCompose(roles, name, n, i, level * around);
        assert level <= level * around;
        if NamesAt(roles, name, level) == {} {
          EmptyLevelsStayEmpty(roles, name, level, i + level * around);
        }
      }
    } else {
      var names := {name} + set r | r in roles && r.inheritsFrom.Some? :: r.inheritsFrom.value;
      if NamesAt(roles, name, |names|) != {} {
        var n :| n in NamesAt(roles, name, |names|);
        var chain := ChainTo(roles, name, |names|, n);
        ChainStaysAmongNames(roles, chain);
        var i, j := Pigeonhole(chain, names);
        ChainReaches(roles, chain, 0, i);
        ChainReaches(roles, chain, i, j);
        assert ReachesCycle(roles, name);
      }
    }
  }

  /** An assignment of permissions to names that contains own and inherited permissions. */
  ghost predicate ClosedUnderInheritance(roles: seq<Role>, perms: map<string, set<string>>) {
    && (forall r :: r in roles ==> r.name in perms && r.permissions <= perms[r.name])
    && (forall r :: r in roles && r.inheritsFrom.Some? && r.inheritsFrom.value in perms ==>
          perms[r.inheritsFrom.value] <= perms[r.name])
  }

  /** Expansion is closed: a role grants its own permissions and everything its parent's name grants. */
  lemma ExpansionIsClosed(roles: seq<Role>, r: Role, p: string)
    requires r in roles
    requires p in r.permissions || (r.inheritsFrom.Some? && Grants(roles, r.inheritsFrom.value, p))
    ensures Grants(roles, r.name, p)
  {
    if p in r.permissions {
      assert p in OwnPermissions(roles, NamesAt(roles, r.name, 0));
    } else {
      var k: nat :| p in OwnPermissions(roles, NamesAt(roles, r.inheritsFrom.value, k));
      assert r.name in NamesAt(roles, r.name, 0);
      assert r.inheritsFrom.value in NamesAt(roles, r.name, 1);
      LevelsCompose(roles, r.name, r.inheritsFrom.value, 1, k);
      var names, more := NamesAt(roles, r.inheritsFrom.value, k), NamesAt(roles, r.name, 1 + k);
      var s :| s in roles && s.name in names && p in s.permissions;
      assert s.name in more;
      assert p in OwnPermissions(roles, more);
    }
  }

  lemma {:induction false} LevelWithinClosure(roles: seq<Role>, perms: map<string, set<string>>, name: string, k: nat, n: string)
    requires ClosedUnderInheritance(roles, perms)
    requires n in NamesAt(roles, name, k) && n in perms
    ensures name in perms && perms[n] <= perms[name]
  {
    if k > 0 {
      var before := NamesAt(roles, name, k - 1);
      var r :| r in roles && r.name in before && r.inheritsFrom == Some(n);
      LevelWithinClosure(roles, perms, name, k - 1, r.name);
    }
  }

  /** Expansion is least: whatever a role grants lies in every closed assignment of permissions. */
  lemma ExpansionIsLeast(roles: seq<Role>, perms: map<string, set<string>>, name: string, p: string)
    requires ClosedUnderInheritance(roles, perms) && Grants(roles, name, p)
    ensures name in perms && p in perms[name]
  {
    var k: nat :| p in OwnPermissions(roles, NamesAt(roles, name, k));
    var s :| s in roles && s.name in NamesAt(roles, name, k) && p in s.permissions;
    LevelWithinClosure(roles, perms, name, k, s.name);
  }

  /*** Evaluation ***/

  datatype Reason = NoPrincipal | NoMatchingGrant | ExplicitDeny | ExpiredAssignmentsOnly

  /** What the evaluator works through: a database row with its expiry judged, or a cached row without. */
  datatype Candidate = Candidate(
    id: string, roleId: string, roleName: string, scope: Scope, source: string, expired: bool)

  datatype Verdict =
    | Denied(reason: Reason, denies: seq<DenyRow>)
    | Allowed(matched: seq<Candidate>)

  predicate DenyApplies(d: DenyRow, permission: string, resource: Scope, now: int) {
    !ExpiredAt(d.expiresAt, now) && (d.permission == permission || d.permission == "*") && Contains(d.scope, resource)
  }

  function MatchedDenies(denies: seq<DenyRow>, permission: string, resource: Scope, now: int): seq<DenyRow> {
    if denies == [] then []
    else
      var rest := MatchedDenies(denies[1..], permission, resource, now);
      if DenyApplies(denies[0], permission, resource, now) then [denies[0]] + rest else rest
  }

  function Judged(a: Assignment, now: int): Candidate {
    Candidate(a.id, a.roleId, a.roleName, a.scope, a.source, ExpiredAt(a.expiresAt, now))
  }

  /** What the cache keeps: the row without its `expired` flag, which later reads as not expired. */
  function Stored(c: Candidate): Candidate {
    c.(expired := false)
  }

  function JudgeAll(rows: seq<Assignment>, now: int): (r: seq<Candidate>)
    ensures |r| == |rows| && forall i :: 0 <= i < |rows| ==> r[i] == Judged(rows[i], now)
  {
    if rows == [] then [] else [Judged(rows[0], now)] + JudgeAll(rows[1..], now)
  }

  function StoreAll(cs: seq<Candidate>): (r: seq<Candidate>)
    ensures |r| == |cs| && forall i :: 0 <= i < |cs| ==> r[i] == Stored(cs[i])
  {
    if cs == [] then [] else [Stored(cs[0])] + StoreAll(cs[1..])
  }

  ghost predicate Covers(roles: seq<Role>, c: Candidate, permission: string, resource: Scope) {
    Contains(c.scope, resource) && Grants(roles, c.roleName, permission)
  }

  ghost function MatchedGrants(roles: seq<Role>, cs: seq<Candidate>, permission: string, resource: Scope): seq<Candidate> {
    if cs == [] then []
    else
      var rest := MatchedGrants(roles, cs[1..], permission, resource);
      if !cs[0].expired && Covers(roles, cs[0], permission, resource) then [cs[0]] + rest else rest
  }

  ghost predicate SomeExpiredInScope(cs: seq<Candidate>, resource: Scope) {
    exists i :: 0 <= i < |cs| && cs[i].expired && Contains(cs[i].scope, resource)
  }

  lemma {:induction false} MatchedDeniesAre(denies: seq<DenyRow>, permission: string, resource: Scope, now: int)
    ensures forall d :: d in MatchedDenies(denies, permission, resource, now) <==>
      d in denies && DenyApplies(d, permission, resource, now)
  {
    if denies != [] {
      MatchedDeniesAre(denies[1..], permission, resource, now);
      assert forall d :: d in denies <==> d == denies[0] || d in denies[1..];
    }
  }

  lemma {:induction false} MatchedGrantsAre(roles: seq<Role>, cs: seq<Candidate>, permission: string, resource: Scope)
    ensures forall c :: c in MatchedGrants(roles, cs, permission, resource) <==>
      c in cs && !c.expired && Covers(roles, c, permission, resource)
  {
    if cs != [] {
      MatchedGrantsAre(roles, cs[1..], permission, resource);
      assert forall c :: c in cs <==> c == cs[0] || c in cs[1..];
    }
  }

  /** The candidate alone, if it matches. */
  ghost function MatchOf(roles: seq<Role>, c: Candidate, permission: string, resource: Scope): seq<Candidate> {
    if !c.expired && Covers(roles, c, permission, resource) then [c] else []
  }

  lemma MatchedHead(roles: seq<Role>, cs: seq<Candidate>, permission: string, resource: Scope)
    requires cs != []
    ensures MatchedGrants(roles, cs, permission, resource) ==
      MatchOf(roles, cs[0], permission, resource) + MatchedGrants(roles, cs[1..], permission, resource)
  {}

  lemma ExpiredHead(cs: seq<Candidate>, resource: Scope)
    requires cs != []
    ensures SomeExpiredInScope(cs, resource) <==>
      (cs[0].expired && Contains(cs[0].scope, resource)) || SomeExpiredInScope(cs[1..], resource)
  {
    assert forall k :: 0 < k < |cs| ==> cs[k] == cs[1..][k - 1];
  }

  /** One more candidate, with `matched` taken from those before it. */
  lemma MatchStep(roles: seq<Role>, cs: seq<Candidate>, i: nat, matched: seq<Candidate>, permission: string, resource: Scope)
    requires i < |cs|
    ensures matched + MatchedGrants(roles, cs[i..], permission, resource) ==
      (matched + MatchOf(roles, cs[i], permission, resource)) + MatchedGrants(roles, cs[i + 1..], permission, resource)
    ensures SomeExpiredInScope(cs[i..], resource) <==>
      (cs[i].expired && Contains(cs[i].scope, resource)) || SomeExpiredInScope(cs[i + 1..], resource)
  {
    MatchedHead(roles, cs[i..], permission, resource);
    ExpiredHead(cs[i..], resource);
    assert cs[i..][1..] == cs[i + 1..];
  }

  /** The verdict over given candidates, deny first. */
  ghost function Evaluated(
    roles: seq<Role>, denies: seq<DenyRow>, cs: seq<Candidate>, permission: string, resource: Scope, now: int): Verdict
  {
    var matchedDenies := MatchedDenies(denies, permission, resource, now);
    var matched := MatchedGrants(roles, cs, permission, resource);
    if matchedDenies != [] then Denied(ExplicitDeny, matchedDenies)
    else if matched != [] then Allowed(matched)
    else Denied(if SomeExpiredInScope(cs, resource) then ExpiredAssignmentsOnly else NoMatchingGrant, [])
  }

  /** One cached assignment list: the version it was stored under and when it falls out. */
  datatype CacheEntry = CacheEntry(rows: seq<Candidate>, goneAt: int)

  const CACHE_TTL := 60_000_000

  /** The shared cache: a version per principal and, per principal and version, a list. */
  datatype Cache = Cache(versions: map<string, string>, entries: map<(string, string), CacheEntry>)

  function CacheGet(c: Cache, principal: string, now: int): Option<seq<Candidate>> {
    if principal !in c.versions then None
    else
      var key := (principal, c.versions[principal]);
      if key in c.entries && now < c.entries[key].goneAt then Some(c.entries[key].rows) else None
  }

  function CacheSet(c: Cache, principal: string, rows: seq<Candidate>, now: int): Cache {
    var version := if principal in c.versions then c.versions[principal] else "1";
    Cache(c.versions[principal := version],
          c.entries[(principal, version) := CacheEntry(StoreAll(rows), now + CACHE_TTL)])
  }

  /** A live hit returns what the last set for the current version stored. */
  lemma CacheRoundTrip(c: Cache, principal: string, rows: seq<Candidate>, t0: int, t1: int)
    ensures CacheGet(CacheSet(c, principal, rows, t0), principal, t1) ==
      if t1 < t0 + 60 * 1_000_000 then Some(StoreAll(rows)) else None
  {}

  /** Which Redis calls of one evaluation fail; each failure is logged and ignored. */
  datatype RedisFault = RedisFault(getFails: bool, versionFails: bool, entryFails: bool)

  /** No Redis client, a failing call, a missing entry and a dead one are all a miss. */
  function Fetch(c: Option<Cache>, principal: string, now: int, f: RedisFault): Option<seq<Candidate>> {
    if c.None? || f.getFails then None else CacheGet(c.value, principal, now)
  }

  function Keep(c: Option<Cache>, principal: string, rows: seq<Candidate>, now: int, f: RedisFault): Option<Cache> {
    if c.None? || f.versionFails then c
    else
      var full := CacheSet(c.value, principal, rows, now);
      Some(if f.entryFails then c.value.(versions := full.versions) else full)
  }

  /** The recursive query returns for every role that the loop over the candidates asks for. */
  ghost predicate Expandable(roles: seq<Role>, cs: seq<Candidate>, resource: Scope) {
    forall i :: 0 <= i < |cs| && !cs[i].expired && Contains(cs[i].scope, resource) ==> Halts(roles, cs[i].roleName)
  }

  /** A grant on a scope of the first type can allow a resource of the second. */
  predicate GrantReaches(granted: string, asked: string) {
    || granted == "PLATFORM"
    || (granted == asked && granted in {"TENANT", "TEAM", "NAMESPACE"})
    || (granted == "TENANT" && asked in {"TEAM", "NAMESPACE"})
    || (granted == "TEAM" && asked == "NAMESPACE")
  }

  class RBACEvaluator {
    const db: Database
    var cache: Option<Cache>
    var memo: map<string, set<string>>

    /** The memo agrees with a fresh expansion of every role name it holds. */
    ghost predicate Valid()
      reads this
    {
      forall n, p :: n in memo ==> (p in memo[n] <==> Grants(db.roles, n, p))
    }

    constructor (db: Database, cache: Option<Cache>)
      ensures Valid() && this.db == db && this.cache == cache
    {
      this.db, this.cache, memo := db, cache, map[];
    }

    method ExpandRolePermissions(name: string) returns (perms: set<string>)
      requires Valid() && Halts(db.roles, name)
      modifies this`memo
      ensures Valid()
      ensures forall p :: p in perms <==> Grants(db.roles, name, p)
    {
      if name in memo {
        return memo[name];
      }
      perms := ExpandRole(db.roles, name);
      memo := memo[name := perms];
    }

    /** What the loop works through: the cached rows on a hit, else the database rows with their expiry judged. */
    function Candidates(principal: string, now: int, f: RedisFault): seq<Candidate>
      reads this
    {
      var cached := Fetch(cache, principal, now, f);
      if cached.Some? then cached.value else JudgeAll(TablesOf(db, principal).assignments, now)
    }

    /** The cached rows if there is a live entry, else the database rows, which are then cached. */
    method ResolveAssignments(principal: string, now: int, f: RedisFault) returns (rows: seq<Candidate>, hit: bool)
      modifies this`cache
      ensures hit <==> Fetch(old(cache), principal, now, f).Some?
      ensures rows == old(Candidates(principal, now, f))
      ensures cache == if hit then old(cache) else Keep(old(cache), principal, rows, now, f)
    {
      var cached := if cache.None? || f.getFails then None else CacheGet(cache.value, principal, now);
      if cached.Some? {
        return cached.value, true;
      }
      rows, hit := JudgeAll(TablesOf(db, principal).assignments, now), false;
      if cache.Some? && !f.versionFails {
        var c := cache.value;
        var version := if principal in c.versions then c.versions[principal] else "1";
        cache := Some(c.(versions := c.versions[principal := version]));
        if !f.entryFails {
          var entry := CacheEntry(StoreAll(rows), now + CACHE_TTL);
          cache := Some(cache.value.(entries := c.entries[(principal, version) := entry]));
        }
      }
    }

    /** Deny rows are read afresh on every evaluation. */
    method CheckDenies(principal: string, permission: string, resource: Scope, now: int) returns (matched: seq<DenyRow>)
      ensures matched == MatchedDenies(TablesOf(db, principal).denies, permission, resource, now)
    {
      matched := [];
      var denies := DeniesOf(db.denies, principal);
      var i := 0;
      while i < |denies|
        invariant 0 <= i <= |denies|
        invariant matched + MatchedDenies(denies[i..], permission, resource, now) ==
          MatchedDenies(denies, permission, resource, now)
      {
        var d := denies[i];
        assert denies[i..][1..] == denies[i + 1..];
        i := i + 1;
        if ExpiredAt(d.expiresAt, now) || (d.permission != permission && d.permission != "*") {
          continue;
        }
        if Contains(d.scope, resource) {
          matched := matched + [d];
        }
      }
    }

    /** Whether an assignment in scope that has not expired grants the permission, through the memo. */
    method IsMatch(c: Candidate, permission: string, resource: Scope) returns (b: bool)
      requires Valid()
      requires !c.expired && Contains(c.scope, resource) ==> Halts(db.roles, c.roleName)
      modifies this`memo
      ensures Valid()
      ensures b <==> !c.expired && Covers(db.roles, c, permission, resource)
    {
      if c.expired || !Contains(c.scope, resource) {
        return false;
      }
      var perms := ExpandRolePermissions(c.roleName);
      b := permission in perms;
    }

    /** The loop over the candidates: skip what does not contain the resource, note what is expired. */
    method MatchGrants(cs: seq<Candidate>, permission: string, resource: Scope)
      returns (matched: seq<Candidate>, sawExpired: bool)
      requires Valid() && Expandable(db.roles, cs, resource)
      modifies this`memo
      ensures Valid()
      ensures matched == MatchedGrants(db.roles, cs, permission, resource)
      ensures sawExpired <==> SomeExpiredInScope(cs, resource)
    {
      matched, sawExpired := [], false;
      var i := 0;
      while i < |cs|
        invariant 0 <= i <= |cs|
        invariant Valid()
        invariant matched + MatchedGrants(db.roles, cs[i..], permission, resource) ==
          MatchedGrants(db.roles, cs, permission, resource)
        invariant sawExpired || SomeExpiredInScope(cs[i..], resource) <==> SomeExpiredInScope(cs, resource)
      {
        MatchStep(db.roles, cs, i, matched, permission, resource);
        var isMatch := IsMatch(cs[i], permission, resource);
        if isMatch {
          matched := matched + [cs[i]];
        } else if cs[i].expired && Contains(cs[i].scope, resource) {
          sawExpired := true;
        }
        i := i + 1;
      }
    }

    /** Deny first, then grants; a missing scope means the platform, a missing principal is denied. */
    method Evaluate(principal: Option<string>, permission: string, scope: Option<Scope>, now: int, f: RedisFault)
      returns (r: Verdict, hit: bool)
      requires Valid()
      requires principal.Some? ==>
        var resource := if scope.Some? then scope.value else PLATFORM_SCOPE;
        || MatchedDenies(TablesOf(db, principal.value).denies, permission, resource, now) != []
        || Expandable(db.roles, Candidates(principal.value, now, f), resource)
      modifies this
      ensures Valid()
      ensures principal.None? ==> r == Denied(NoPrincipal, []) && cache == old(cache)
      ensures principal.Some? ==>
        var resource := if scope.Some? then scope.value else PLATFORM_SCOPE;
        var t := TablesOf(db, principal.value);
        var cs := old(Candidates(principal.value, now, f));
        var denied := MatchedDenies(t.denies, permission, resource, now) != [];
        && r == Evaluated(t.roles, t.denies, cs, permission, resource, now)
        && (hit <==> !denied && Fetch(old(cache), principal.value, now, f).Some?)
        && cache == if denied || hit then old(cache) else Keep(old(cache), principal.value, cs, now, f)
      ensures r.Allowed? ==>
        var asked := if scope.Some? then scope.value.kind else "PLATFORM";
        principal.Some? && exists c :: c in old(Candidates(principal.value, now, f)) && !c.expired && GrantReaches(c.scope.kind, asked)
    {
      hit := false;
      if principal.None? {
        return Denied(NoPrincipal, []), false;
      }
      var resource := if scope.Some? then scope.value else PLATFORM_SCOPE;
      var denies := CheckDenies(principal.value, permission, resource, now);
      if denies != [] {
        return Denied(ExplicitDeny, denies), false;
      }
      var cs: seq<Candidate>;
      cs, hit := ResolveAssignments(principal.value, now, f);
      var matched, sawExpired := MatchGrants(cs, permission, resource);
      if matched != [] {
        MatchedGrantsAre(db.roles, cs, permission, resource);
        assert matched[0] in matched;
        ContainsIffBroader(matched[0].scope, resource);
        return Allowed(matched), hit;
      }
      r := Denied(if sawExpired then ExpiredAssignmentsOnly else NoMatchingGrant, []);
    }
  }

  /*** What the uncached verdict means ***/

  ghost function UncachedVerdict(t: Tables, permission: string, resource: Scope, now: int): Verdict {
    Evaluated(t.roles, t.denies, JudgeAll(t.assignments, now), permission, resource, now)
  }

  ghost predicate LiveGrant(roles: seq<Role>, a: Assignment, permission: string, resource: Scope, now: int) {
    (a.expiresAt.Some? ==> now <= a.expiresAt.value) && Contains(a.scope, resource) && Grants(roles, a.roleName, permission)
  }

  /** Allowed exactly when no live deny matches and some live assignment in scope grants the permission. */
  lemma AllowedIffGrantedAndNotDenied(t: Tables, permission: string, resource: Scope, now: int)
    ensures UncachedVerdict(t, permission, resource, now).Allowed? <==>
      && (forall d :: d in t.denies ==> !DenyApplies(d, permission, resource, now))
      && (exists a :: a in t.assignments && LiveGrant(t.roles, a, permission, resource, now))
  {
    var cs := JudgeAll(t.assignments, now);
    var denied := MatchedDenies(t.denies, permission, resource, now);
    var matched := MatchedGrants(t.roles, cs, permission, resource);
    MatchedDeniesAre(t.denies, permission, resource, now);
    MatchedGrantsAre(t.roles, cs, permission, resource);
    assert denied != [] ==> denied[0] in denied;
    if matched != [] {
      assert matched[0] in matched;
      var i :| 0 <= i < |cs| && cs[i] == matched[0];
      assert t.assignments[i] in t.assignments && LiveGrant(t.roles, t.assignments[i], permission, resource, now);
    }
    if a :| a in t.assignments && LiveGrant(t.roles, a, permission, resource, now) {
      var i :| 0 <= i < |t.assignments| && t.assignments[i] == a;
      assert cs[i] in cs && cs[i] in matched;
    }
  }

  /** Some live assignment of the principal grants the permission, read off the database. */
  ghost predicate GrantedByDatabase(db: Database, principal: string, permission: string, resource: Scope, now: int) {
    exists g: GrantRow, role: Role ::
      && g in db.grants && !g.revoked && (g.holder == principal || Membership(principal, g.holder) in db.memberships)
      && role in db.roles && role.id == g.roleId && Grants(db.roles, role.name, permission)
      && (g.expiresAt.Some? ==> now <= g.expiresAt.value) && Contains(g.scope, resource)
  }

  lemma LiveGrantsAreRows(db: Database, principal: string, permission: string, resource: Scope, now: int)
    ensures (exists a :: a in TablesOf(db, principal).assignments && LiveGrant(db.roles, a, permission, resource, now))
      <==> GrantedByDatabase(db, principal, permission, resource, now)
  {
    var rows := TablesOf(db, principal).assignments;
    if a :| a in rows && LiveGrant(db.roles, a, permission, resource, now) {
      AssignmentsAreJoined(db, principal, a);
    }
    if g: GrantRow, role: Role :|
      && g in db.grants && !g.revoked && (g.holder == principal || Membership(principal, g.holder) in db.memberships)
      && role in db.roles && role.id == g.roleId && Grants(db.roles, role.name, permission)
      && (g.expiresAt.Some? ==> now <= g.expiresAt.value) && Contains(g.scope, resource)
    {
      var a := Joined(g, role, if g.holder == principal then "direct" else "team:" + g.holder);
      assert GivenBy(db, g, role, g.holder) && Reaches(db, g.holder, principal, a.source);
      AssignmentsAreJoined(db, principal, a);
    }
  }

  /** The same from the database: who is allowed is decided by unrevoked live grants, own or of a team. */
  lemma DatabaseAllowsIff(db: Database, principal: string, permission: string, resource: Scope, now: int)
    ensures UncachedVerdict(TablesOf(db, principal), permission, resource, now).Allowed? <==>
      && (forall d ::
            (d in db.denies && d.principal == principal && (d.permission == permission || d.permission == "*")
             && (d.expiresAt.Some? ==> now <= d.expiresAt.value)) ==> !Contains(d.scope, resource))
      && GrantedByDatabase(db, principal, permission, resource, now)
  {
    var t := TablesOf(db, principal);
    AllowedIffGrantedAndNotDenied(t, permission, resource, now);
    LiveGrantsAreRows(db, principal, permission, resource, now);
    forall d ensures d in t.denies <==> d in db.denies && d.principal == principal {
      DenyRows(db.denies, principal, d);
    }
  }

  /** Why a request is refused: a matching deny, else an expired assignment in scope, else no grant at all. */
  lemma RefusalReasons(t: Tables, permission: string, resource: Scope, now: int)
    ensures var v := UncachedVerdict(t, permission, resource, now);
      var denied := exists d :: d in t.denies && DenyApplies(d, permission, resource, now);
      var live := exists a :: a in t.assignments && LiveGrant(t.roles, a, permission, resource, now);
      var expired := exists a :: a in t.assignments && a.expiresAt.Some? && a.expiresAt.value < now && Contains(a.scope, resource);
      && (denied ==>
            && v.Denied? && v.reason == ExplicitDeny && v.denies != []
            && forall d :: d in v.denies <==> d in t.denies && DenyApplies(d, permission, resource, now))
      && (!denied && live ==> v.Allowed? && forall c :: c in v.matched ==> !c.expired && Contains(c.scope, resource))
      && (!denied && !live ==> v == Denied(if expired then ExpiredAssignmentsOnly else NoMatchingGrant, []))
  {
    AllowedIffGrantedAndNotDenied(t, permission, resource, now);
    var matched := MatchedDenies(t.denies, permission, resource, now);
    MatchedDeniesAre(t.denies, permission, resource, now);
    MatchedGrantsAre(t.roles, JudgeAll(t.assignments, now), permission, resource);
    assert matched != [] ==> matched[0] in matched;
    ExpiryInScope(t, resource, now);
  }

  /** Grants on namespaces alone never allow a team, a tenant or the platform. */
  lemma NamespaceGrantsStayBelow(t: Tables, permission: string, resource: Scope, now: int)
    requires forall a :: a in t.assignments ==> a.scope.kind == "NAMESPACE"
    requires resource.kind in {"TEAM", "TENANT", "PLATFORM"}
    ensures !UncachedVerdict(t, permission, resource, now).Allowed?
  {
    AllowedIffGrantedAndNotDenied(t, permission, resource, now);
  }

  /** A role granted in tenant A allows a team of tenant B, which the documented relation excludes. */
  lemma TenantGrantReachesForeignTeam(now: int) returns (h: Hierarchy, db: Database)
    ensures var tenantA, tenantB, team := Scope("TENANT", "a"), Scope("TENANT", "b"), Scope("TEAM", "t");
      && h(team) == Some(tenantB) && Documented(h, tenantB, team) && !Documented(h, tenantA, team)
      && (forall g :: g in db.grants ==> g.scope == tenantA)
      && UncachedVerdict(TablesOf(db, "alice"), "read", team, now).Allowed?
  {
    var tenantB, team := Scope("TENANT", "b"), Scope("TEAM", "t");
    h := s => if s == team then Some(tenantB) else None;
    assert Ancestor(h, team, 1) == Some(tenantB) by {
      assert Ancestor(h, tenantB, 0) == Some(tenantB);
    }
    forall steps: nat ensures Ancestor(h, team, steps) != Some(Scope("TENANT", "a")) {
      if steps > 1 {
        assert Ancestor(h, tenantB, steps - 1) == None;
      }
    }
    var viewer := Role("r1", "viewer", {"read"}, None);
    var g := GrantRow("g1", "alice", "r1", Scope("TENANT", "a"), false, None);
    db := Database([viewer], [g], [], []);
    assert GivenBy(db, g, viewer, "alice") && Reaches(db, "alice", "alice", "direct");
    assert "read" in OwnPermissions(db.roles, NamesAt(db.roles, "viewer", 0));
    assert LiveGrant(db.roles, Joined(g, viewer, "direct"), "read", team, now);
    DatabaseAllowsIff(db, "alice", "read", team, now);
  }

  /** Adding denies never creates an ALLOW, and adding assignments never removes one. */
  lemma DeniesShrinkGrantsGrow(
    t: Tables, moreDenies: seq<DenyRow>, moreAssignments: seq<Assignment>, permission: string, resource: Scope, now: int)
    requires forall d :: d in t.denies ==> d in moreDenies
    requires forall a :: a in t.assignments ==> a in moreAssignments
    ensures UncachedVerdict(t.(denies := moreDenies), permission, resource, now).Allowed? ==>
      UncachedVerdict(t, permission, resource, now).Allowed?
    ensures UncachedVerdict(t, permission, resource, now).Allowed? ==>
      UncachedVerdict(t.(assignments := moreAssignments), permission, resource, now).Allowed?
  {
    AllowedIffGrantedAndNotDenied(t, permission, resource, now);
    AllowedIffGrantedAndNotDenied(t.(denies := moreDenies), permission, resource, now);
    AllowedIffGrantedAndNotDenied(t.(assignments := moreAssignments), permission, resource, now);
  }

  /** Replacing the scope of one assignment by a containing scope keeps every ALLOW. */
  lemma WideningAGrantKeepsAllow(t: Tables, i: nat, wider: Scope, permission: string, resource: Scope, now: int)
    requires i < |t.assignments| && Contains(wider, t.assignments[i].scope)
    requires UncachedVerdict(t, permission, resource, now).Allowed?
    ensures var widened := t.assignments[i := t.assignments[i].(scope := wider)];
      UncachedVerdict(t.(assignments := widened), permission, resource, now).Allowed?
  {
    var widened := t.assignments[i := t.assignments[i].(scope := wider)];
    AllowedIffGrantedAndNotDenied(t, permission, resource, now);
    AllowedIffGrantedAndNotDenied(t.(assignments := widened), permission, resource, now);
    var a :| a in t.assignments && LiveGrant(t.roles, a, permission, resource, now);
    var j :| 0 <= j < |t.assignments| && t.assignments[j] == a;
    if j == i {
      ContainmentIsTransitive(wider, a.scope, resource);
    }
    assert widened[j] in widened;
    assert LiveGrant(t.roles, widened[j], permission, resource, now);
  }

  /*** Cached against uncached ***/

  /** The verdict on a cache hit at `t1` when the entry was filled at `t0` from the same tables. */
  ghost function CachedVerdict(t: Tables, permission: string, resource: Scope, t0: int, t1: int): Verdict {
    Evaluated(t.roles, t.denies, StoreAll(JudgeAll(t.assignments, t0)), permission, resource, t1)
  }

  ghost predicate ExpiredCovering(t: Tables, permission: string, resource: Scope, now: int) {
    exists a :: a in t.assignments && ExpiredAt(a.expiresAt, now) && Contains(a.scope, resource)
      && Grants(t.roles, a.roleName, permission)
  }

  ghost predicate ExpiredInScope(t: Tables, resource: Scope, now: int) {
    exists a :: a in t.assignments && ExpiredAt(a.expiresAt, now) && Contains(a.scope, resource)
  }

  lemma ExpiredCoveringCons(roles: seq<Role>, rows: seq<Assignment>, permission: string, resource: Scope, now: int)
    requires rows != []
    ensures ExpiredCovering(Tables(roles, rows, []), permission, resource, now) <==>
      || (ExpiredAt(rows[0].expiresAt, now) && Contains(rows[0].scope, resource) && Grants(roles, rows[0].roleName, permission))
      || ExpiredCovering(Tables(roles, rows[1..], []), permission, resource, now)
  {
    var t, rest := Tables(roles, rows, []), Tables(roles, rows[1..], []);
    assert rows[0] in t.assignments;
    assert forall a :: a in rest.assignments ==> a in t.assignments;
    assert forall a :: a in t.assignments ==> a == rows[0] || a in rest.assignments;
  }

  /** The matches on a hit are all covering assignments; they are the live ones iff none is expired. */
  lemma {:induction false} CachedMatches(roles: seq<Role>, rows: seq<Assignment>, permission: string, resource: Scope, t0: int, t1: int)
    ensures var cached := MatchedGrants(roles, StoreAll(JudgeAll(rows, t0)), permission, resource);
      var live := MatchedGrants(roles, JudgeAll(rows, t1), permission, resource);
      && |live| <= |cached|
      && (cached == live <==> !ExpiredCovering(Tables(roles, rows, []), permission, resource, t1))
      && (|cached| == |live| <==> cached == live)
  {
    if rows != [] {
      CachedMatches(roles, rows[1..], permission, resource, t0, t1);
      ExpiredCoveringCons(roles, rows, permission, resource, t1);
      var stored, judged := StoreAll(JudgeAll(rows, t0)), JudgeAll(rows, t1);
      assert stored[1..] == StoreAll(JudgeAll(rows[1..], t0));
      assert judged[1..] == JudgeAll(rows[1..], t1);
      assert Covers(roles, stored[0], permission, resource) == Covers(roles, judged[0], permission, resource);
    }
  }

  /**
   With assignments and roles unchanged since the fill, for any deny table: the cached evaluation
   decides like the uncached one exactly when a deny matches, no expired assignment covers the
   request, or a live one covers it too; and the whole verdict is the same exactly when a deny
   matches, or no expired assignment covers the request and either some live one does or none in
   scope is expired at all.
   */
  lemma CachedAgreesIffNoExpiredGrant(t: Tables, permission: string, resource: Scope, t0: int, t1: int)
    ensures var cached, uncached := CachedVerdict(t, permission, resource, t0, t1), UncachedVerdict(t, permission, resource, t1);
      var denied := exists d :: d in t.denies && DenyApplies(d, permission, resource, t1);
      var live := exists a :: a in t.assignments && LiveGrant(t.roles, a, permission, resource, t1);
      && (cached.Allowed? == uncached.Allowed? <==> denied || !ExpiredCovering(t, permission, resource, t1) || live)
      && (cached == uncached <==>
            denied || (!ExpiredCovering(t, permission, resource, t1) && (live || !ExpiredInScope(t, resource, t1))))
  {
    var denied := MatchedDenies(t.denies, permission, resource, t1);
    MatchedDeniesAre(t.denies, permission, resource, t1);
    assert denied != [] ==> denied[0] in denied;
    var stored, judged := StoreAll(JudgeAll(t.assignments, t0)), JudgeAll(t.assignments, t1);
    var cachedMatches := MatchedGrants(t.roles, stored, permission, resource);
    var liveMatches := MatchedGrants(t.roles, judged, permission, resource);
    CachedMatches(t.roles, t.assignments, permission, resource, t0, t1);
    assert ExpiredCovering(Tables(t.roles, t.assignments, []), permission, resource, t1) ==
      ExpiredCovering(t, permission, resource, t1);
    LiveMatchesExist(t, permission, resource, t1);
    assert !SomeExpiredInScope(stored, resource);
    ExpiryInScope(t, resource, t1);
  }

  lemma LiveMatchesExist(t: Tables, permission: string, resource: Scope, now: int)
    ensures MatchedGrants(t.roles, JudgeAll(t.assignments, now), permission, resource) != [] <==>
      exists a :: a in t.assignments && LiveGrant(t.roles, a, permission, resource, now)
  {
    AllowedIffGrantedAndNotDenied(t.(denies := []), permission, resource, now);
  }

  lemma ExpiryInScope(t: Tables, resource: Scope, now: int)
    ensures SomeExpiredInScope(JudgeAll(t.assignments, now), resource) <==> ExpiredInScope(t, resource, now)
  {
    var judged := JudgeAll(t.assignments, now);
    if a :| a in t.assignments && ExpiredAt(a.expiresAt, now) && Contains(a.scope, resource) {
      var i :| 0 <= i < |t.assignments| && t.assignments[i] == a;
      assert judged[i].expired;
    }
  }

  /** An assignment that was already expired when the cache was filled is honoured on every hit. */
  lemma CacheRevivesExpiredGrant()
    ensures var t := Tables([Role("r1", "viewer", {"read"}, None)],
                            [Assignment("a1", "r1", "viewer", PLATFORM_SCOPE, "direct", Some(10))], []);
      && !UncachedVerdict(t, "read", PLATFORM_SCOPE, 20).Allowed?
      && CachedVerdict(t, "read", PLATFORM_SCOPE, 20, 20).Allowed?
  {
    var viewer := Role("r1", "viewer", {"read"}, None);
    var grant := Assignment("a1", "r1", "viewer", PLATFORM_SCOPE, "direct", Some(10));
    var t := Tables([viewer], [grant], []);
    assert viewer in t.roles && "read" in viewer.permissions;
    assert "read" in OwnPermissions(t.roles, NamesAt(t.roles, "viewer", 0));
    assert grant in t.assignments && ExpiredCovering(t, "read", PLATFORM_SCOPE, 20);
    AllowedIffGrantedAndNotDenied(t, "read", PLATFORM_SCOPE, 20);
    CachedAgreesIffNoExpiredGrant(t, "read", PLATFORM_SCOPE, 20, 20);
  }
}
