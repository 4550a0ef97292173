/** Role-based access control with inherited permissions (Contracts/shared/src/acl.rs). */
module Acl {
  import opened Wrappers

  type Address = nat
  type Symbol = nat

  const MAX_DEPTH: nat := 10

  /** The permission lists and the parent link of each role. */
  datatype Roles = Roles(perms: map<Symbol, seq<Symbol>>, parents: map<Symbol, Symbol>)

  /** A search answers, or aborts because the hierarchy is too deep. */
  datatype Answer = Yes | No | TooDeep

  predicate Carries(r: Roles, role: Symbol, permission: Symbol) {
    role in r.perms && permission in r.perms[role]
  }

  /** check_role: the role itself, then its parent, up to the depth limit. */
  function CheckRole(r: Roles, role: Symbol, permission: Symbol, depth: nat): (a: Answer)
    decreases if depth <= MAX_DEPTH then MAX_DEPTH + 1 - depth else 0
  {
    if depth > MAX_DEPTH then TooDeep
    else if Carries(r, role, permission) then Yes
    else if role in r.parents then CheckRole(r, r.parents[role], permission, depth + 1)
    else No
  }

  /** has_permission over a user's role list: the first role that does not answer No decides. */
  function SearchRoles(r: Roles, roles: seq<Symbol>, permission: Symbol): (a: Answer) {
    if roles == [] then No
    else
      var first := CheckRole(r, roles[0], permission, 0);
      if first == No then SearchRoles(r, roles[1..], permission) else first
  }

  // ---------------------------------------------------------------------------------------
  // Reachability

  /** The k-th ancestor along parent links, if the chain is that long. */
  function Ancestor(r: Roles, role: Symbol, k: nat): (a: Option<Symbol>)
    decreases k
  {
    if k == 0 then Some(role)
    else if role in r.parents then Ancestor(r, r.parents[role], k - 1)
    else None
  }

  ghost predicate CarriesAt(r: Roles, role: Symbol, permission: Symbol, k: nat) {
    Ancestor(r, role, k).Some? && Carries(r, Ancestor(r, role, k).value, permission)
  }

  /** Some role reachable through parent links, at any distance, carries the permission. */
  ghost predicate Reaches(r: Roles, role: Symbol, permission: Symbol) {
    exists k: nat :: CarriesAt(r, role, permission, k)
  }

  ghost predicate CarriesWithin(r: Roles, role: Symbol, permission: Symbol, n: nat) {
    exists k: nat :: k <= n && CarriesAt(r, role, permission, k)
  }

  lemma {:induction false} ChainStaysEnded(r: Roles, role: Symbol, n: nat, k: nat)
    requires Ancestor(r, role, n).None? && n <= k
    ensures Ancestor(r, role, k).None?
    decreases n
  {
    if n > 0 && role in r.parents {
      ChainStaysEnded(r, r.parents[role], n - 1, k - 1);
    }
  }

  lemma ShiftCarries(r: Roles, role: Symbol, permission: Symbol, n: nat)
    requires role in r.parents && !Carries(r, role, permission) && 0 < n
    ensures CarriesWithin(r, role, permission, n) <==> CarriesWithin(r, r.parents[role], permission, n - 1)
  {
    var parent := r.parents[role];
    if CarriesWithin(r, role, permission, n) {
      var k: nat :| k <= n && CarriesAt(r, role, permission, k);
      assert CarriesAt(r, parent, permission, k - 1);
    }
    if CarriesWithin(r, parent, permission, n - 1) {
      var k: nat :| k <= n - 1 && CarriesAt(r, parent, permission, k);
      assert CarriesAt(r, role, permission, k + 1);
    }
  }

  /** What check_role answers, exactly: Yes when an ancestor within the depth limit carries the
      permission; otherwise it aborts when the chain goes on past the limit, and answers No when it ends
      before. The recursion stops on cyclic links too, since the depth bounds it. */
  lemma {:induction false} CheckRoleExact(r: Roles, role: Symbol, permission: Symbol, depth: nat)
    requires depth <= MAX_DEPTH
    ensures var n := MAX_DEPTH - depth;
            CheckRole(r, role, permission, depth) ==
              if CarriesWithin(r, role, permission, n) then Yes
              else if Ancestor(r, role, n + 1).Some? then TooDeep
              else No
    decreases MAX_DEPTH - depth
  {
    hide CarriesWithin;
    var n := MAX_DEPTH - depth;
    if Carries(r, role, permission) {
      CarriesHere(r, role, permission, n);
    } else if role in r.parents {
      if depth < MAX_DEPTH {
        CheckRoleExact(r, r.parents[role], permission, depth + 1);
        ShiftCarries(r, role, permission, n);
      } else {
        OnlyHere(r, role, permission);
      }
    } else {
      NoParentNothingAbove(r, role, permission, n);
    }
  }

  lemma CarriesHere(r: Roles, role: Symbol, permission: Symbol, n: nat)
    requires Carries(r, role, permission)
    ensures CarriesWithin(r, role, permission, n)
  {
    assert CarriesAt(r, role, permission, 0);
  }

  lemma OnlyHere(r: Roles, role: Symbol, permission: Symbol)
    ensures CarriesWithin(r, role, permission, 0) <==> Carries(r, role, permission)
  {
    assert CarriesAt(r, role, permission, 0) <==> Carries(r, role, permission);
  }

  lemma NoParentNothingAbove(r: Roles, role: Symbol, permission: Symbol, n: nat)
    requires role !in r.parents && !Carries(r, role, permission)
    ensures !CarriesWithin(r, role, permission, n)
  {
    forall k: nat ensures !CarriesAt(r, role, permission, k) {
      if k > 0 {
        ChainStaysEnded(r, role, 1, k);
      }
    }
  }

  /** Whenever one role's search returns, Yes means reachable at any distance and No means not. */
  lemma CheckRoleIsReachability(r: Roles, role: Symbol, permission: Symbol)
    ensures CheckRole(r, role, permission, 0) == Yes ==> Reaches(r, role, permission)
    ensures CheckRole(r, role, permission, 0) == No ==> !Reaches(r, role, permission)
    ensures Ancestor(r, role, MAX_DEPTH + 1).None? ==> CheckRole(r, role, permission, 0) != TooDeep
  {
    CheckRoleExact(r, role, permission, 0);
    if CarriesWithin(r, role, permission, MAX_DEPTH) {
      var k: nat :| k <= MAX_DEPTH && CarriesAt(r, role, permission, k);
    } else if Ancestor(r, role, MAX_DEPTH + 1).None? {
      forall k: nat ensures !CarriesAt(r, role, permission, k) {
        if k > MAX_DEPTH {
          ChainStaysEnded(r, role, MAX_DEPTH + 1, k);
        }
      }
    }
  }

  /** has_permission: whenever it returns, the answer is true exactly when some role reachable through
      parent links from the user's roles carries the permission. */
  lemma {:induction false} SearchIsReachability(r: Roles, roles: seq<Symbol>, permission: Symbol)
    ensures SearchRoles(r, roles, permission) == Yes ==> exists role :: role in roles && Reaches(r, role, permission)
    ensures SearchRoles(r, roles, permission) == No ==> forall role :: role in roles ==> !Reaches(r, role, permission)
  {
    hide Reaches, CheckRole;
    if roles != [] {
      CheckRoleIsReachability(r, roles[0], permission);
      SearchIsReachability(r, roles[1..], permission);
      if SearchRoles(r, roles, permission) == Yes && CheckRole(r, roles[0], permission, 0) == No {
        var role :| role in roles[1..] && Reaches(r, role, permission);
        assert role in roles;
      }
    }
  }

  /** It aborts exactly when some role's chain is too deep without the permission in reach of the depth
      limit and every role before it answers No. */
  lemma {:induction false} AbortsExactly(r: Roles, roles: seq<Symbol>, permission: Symbol)
    ensures SearchRoles(r, roles, permission) == TooDeep <==>
              exists i :: 0 <= i < |roles| && CheckRole(r, roles[i], permission, 0) == TooDeep
                          && forall j :: 0 <= j < i ==> CheckRole(r, roles[j], permission, 0) == No
  {
    hide CheckRole;
    if roles != [] {
      AbortsExactly(r, roles[1..], permission);
      var rest := roles[1..];
      CheckRoleIsReachability(r, roles[0], permission);
      if SearchRoles(r, roles, permission) == TooDeep && CheckRole(r, roles[0], permission, 0) == No {
        var i :| 0 <= i < |rest| && CheckRole(r, rest[i], permission, 0) == TooDeep
                 && forall j :: 0 <= j < i ==> CheckRole(r, rest[j], permission, 0) == No;
        assert roles[i + 1] == rest[i];
        assert forall j :: 0 <= j < i + 1 ==> CheckRole(r, roles[j], permission, 0) == No by {
          forall j | 0 <= j < i + 1 ensures CheckRole(r, roles[j], permission, 0) == No {
            if j > 0 {
              assert roles[j] == rest[j - 1];
            }
          }
        }
      }
      if i :| 0 <= i < |roles| && CheckRole(r, roles[i], permission, 0) == TooDeep
              && forall j :: 0 <= j < i ==> CheckRole(r, roles[j], permission, 0) == No {
        if i > 0 {
          assert rest[i - 1] == roles[i];
          assert forall j :: 0 <= j < i - 1 ==> rest[j] == roles[j + 1];
          assert CheckRole(r, roles[0], permission, 0) == No;
        }
      }
    }
  }

  /** With chains of at most ten links it never aborts. */
  lemma ShortChainsNeverAbort(r: Roles, roles: seq<Symbol>, permission: Symbol)
    requires forall role :: role in roles ==> Ancestor(r, role, 11).None?
    ensures SearchRoles(r, roles, permission) != TooDeep
  {
    hide CheckRole, SearchRoles;
    AbortsExactly(r, roles, permission);
    forall i | 0 <= i < |roles| ensures CheckRole(r, roles[i], permission, 0) != TooDeep {
      assert roles[i] in roles;
      CheckRoleIsReachability(r, roles[i], permission);
    }
  }

  // ---------------------------------------------------------------------------------------
  // Monotonicity

  function WithPermission(r: Roles, role: Symbol, permission: Symbol): (q: Roles) {
    var list := if role in r.perms then r.perms[role] else [];
    r.(perms := r.perms[role := if permission in list then list else list + [permission]])
  }

  function WithRole(roles: seq<Symbol>, role: Symbol): (q: seq<Symbol>) {
    if role in roles then roles else roles + [role]
  }

  /** Assigning a permission gives exactly that permission to exactly that role and leaves every parent. */
  lemma WithPermissionExact(r: Roles, role: Symbol, permission: Symbol, x: Symbol, q: Symbol)
    ensures Carries(WithPermission(r, role, permission), x, q) <==> Carries(r, x, q) || (x == role && q == permission)
    ensures WithPermission(r, role, permission).parents == r.parents
  {
  }

  /** Assigning a role adds exactly that role, behind those already held. */
  lemma WithRoleExact(roles: seq<Symbol>, role: Symbol, x: Symbol)
    ensures x in WithRole(roles, role) <==> x in roles || x == role
    ensures roles <= WithRole(roles, role)
  {
  }

  /** One role's search aborts if and only if neither the role nor its first ten ancestors carry the
      permission and there is an eleventh. */
  lemma AbortsBeyondTen(r: Roles, role: Symbol, permission: Symbol)
    ensures CheckRole(r, role, permission, 0) == TooDeep <==>
              Ancestor(r, role, 11).Some? && forall k: nat :: k <= 10 ==> !CarriesAt(r, role, permission, k)
  {
    CheckRoleExact(r, role, permission, 0);
    hide CheckRole, CarriesAt;
  }

  /** Adding a permission to a role can only turn an answer into Yes. */
  lemma {:induction false} MorePermissionsCheck(r: Roles, added: Symbol, given: Symbol, role: Symbol,
                                                permission: Symbol, depth: nat)
    ensures var before := CheckRole(r, role, permission, depth);
            var after := CheckRole(WithPermission(r, added, given), role, permission, depth);
            after == before || after == Yes
    decreases if depth <= MAX_DEPTH then MAX_DEPTH + 1 - depth else 0
  {
    if depth <= MAX_DEPTH && role in r.parents {
      MorePermissionsCheck(r, added, given, r.parents[role], permission, depth + 1);
    }
  }

  /** assign_permission never turns a true answer into anything else. */
  lemma {:induction false} AssignPermissionKeepsYes(r: Roles, added: Symbol, given: Symbol, roles: seq<Symbol>,
                                                    permission: Symbol)
    requires SearchRoles(r, roles, permission) == Yes
    ensures SearchRoles(WithPermission(r, added, given), roles, permission) == Yes
  {
    hide CheckRole, WithPermission;
    MorePermissionsCheck(r, added, given, roles[0], permission, 0);
    if CheckRole(r, roles[0], permission, 0) == No {
      AssignPermissionKeepsYes(r, added, given, roles[1..], permission);
    }
  }

  /** assign_role never turns a true answer into anything else. */
  lemma {:induction false} AssignRoleKeepsYes(r: Roles, roles: seq<Symbol>, more: seq<Symbol>, permission: Symbol)
    requires SearchRoles(r, roles, permission) == Yes
    ensures SearchRoles(r, roles + more, permission) == Yes
  {
    hide CheckRole;
    assert (roles + more)[1..] == roles[1..] + more;
    if CheckRole(r, roles[0], permission, 0) == No {
      AssignRoleKeepsYes(r, roles[1..], more, permission);
    }
  }

  // ---------------------------------------------------------------------------------------
  // The stored maps

  class AccessControl {
    var userRoles: map<Address, seq<Symbol>>
    var rolePerms: map<Symbol, seq<Symbol>>
    var roleParents: map<Symbol, Symbol>
    var rolesExist: set<Symbol>

    function View(): (r: Roles)
      reads this
    {
      Roles(rolePerms, roleParents)
    }

    function RolesOf(user: Address): (r: seq<Symbol>)
      reads this
    {
      if user in userRoles then userRoles[user] else []
    }

    /** No role is its own parent. */
    ghost predicate Valid()
      reads this
    {
      forall c <- roleParents :: roleParents[c] != c
    }

    constructor ()
      ensures Valid() && userRoles == map[] && rolePerms == map[] && roleParents == map[] && rolesExist == {}
    {
      userRoles, rolePerms, roleParents, rolesExist := map[], map[], map[], {};
    }

    /** assign_role: users who could do something before still can. */
    method AssignRole(user: Address, role: Symbol)
      requires Valid()
      modifies this`userRoles, this`rolesExist
      ensures Valid()
      ensures userRoles == old(userRoles)[user := WithRole(old(RolesOf(user)), role)]
      ensures rolesExist == old(rolesExist) + {role}
      ensures forall u, p ::
                old(SearchRoles(View(), RolesOf(u), p)) == Yes ==> SearchRoles(View(), RolesOf(u), p) == Yes
    {
      if role !in rolesExist {
        rolesExist := rolesExist + {role};
      }
      var roles := RolesOf(user);
      ghost var before := roles;
      if role !in roles {
        roles := roles + [role];
      }
      userRoles := userRoles[user := roles];
      forall u: Address, p: Symbol | old(SearchRoles(View(), RolesOf(u), p)) == Yes
        ensures SearchRoles(View(), RolesOf(u), p) == Yes
      {
        if u == user && role !in before {
          AssignRoleKeepsYes(View(), before, [role], p);
        } else {
          assert RolesOf(u) == old(RolesOf(u));
        }
      }
    }

    /** assign_permission: whoever could do something before still can, whatever roles they hold. */
    method AssignPermission(role: Symbol, permission: Symbol)
      requires Valid()
      modifies this`rolePerms, this`rolesExist
      ensures Valid()
      ensures View() == WithPermission(old(View()), role, permission)
      ensures rolesExist == old(rolesExist) + {role}
      ensures forall roles: seq<Symbol>, p: Symbol ::
                SearchRoles(old(View()), roles, p) == Yes ==> SearchRoles(View(), roles, p) == Yes
    {
      ghost var before := View();
      if role !in rolesExist {
        rolesExist := rolesExist + {role};
      }
      var perms := if role in rolePerms then rolePerms[role] else [];
      if permission !in perms {
        perms := perms + [permission];
      }
      rolePerms := rolePerms[role := perms];
      forall roles: seq<Symbol>, p: Symbol | SearchRoles(before, roles, p) == Yes
        ensures SearchRoles(View(), roles, p) == Yes
      {
        AssignPermissionKeepsYes(before, role, permission, roles, p);
      }
    }

    /** set_parent_role: a role cannot be its own parent; the call aborts. */
    method SetParentRole(child: Symbol, parent: Symbol) returns (aborted: bool)
      requires Valid()
      modifies this`roleParents, this`rolesExist
      ensures Valid()
      ensures aborted <==> child == parent
      ensures aborted ==> unchanged(this)
      ensures !aborted ==> roleParents == old(roleParents)[child := parent]
      ensures !aborted ==> rolesExist == old(rolesExist) + {child, parent}
    {
      if child == parent {
        return true;
      }
      rolesExist := rolesExist + {child, parent};
      roleParents := roleParents[child := parent];
      aborted := false;
    }

    /** has_permission: the loop over the user's roles. */
    method HasPermission(user: Address, permission: Symbol) returns (a: Answer)
      ensures a == SearchRoles(View(), RolesOf(user), permission)
      ensures a == Yes ==> exists role :: role in RolesOf(user) && Reaches(View(), role, permission)
      ensures a == No ==> forall role :: role in RolesOf(user) ==> !Reaches(View(), role, permission)
    {
      hide CheckRole, Reaches;
      var roles := RolesOf(user);
      SearchIsReachability(View(), roles, permission);
      for i := 0 to |roles|
        invariant SearchRoles(View(), roles, permission) == SearchRoles(View(), roles[i..], permission)
      {
        assert roles[i..][1..] == roles[i + 1..];
        var here := CheckRole(View(), roles[i], permission, 0);
        if here != No {
          return here;
        }
      }
      a := No;
    }
  }
}
