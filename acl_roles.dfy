/**
 * The role helpers of the ACL editor: which roles are user roles, which typed
 * inputs may become new options, the current user's own role, the split of an
 * ACL into its group and user halves, labels, the built-in group table with
 * the DAG built from it, and the list of selected supersets shown as a warning
 * next to a group.
 */
module AclRoles {
  import opened Wrappers
  import opened Roles
  import opened Text
  import Finding
  import opened GroupDag

  /** An access list: the roles that may read and the roles that may write. */
  datatype Acl = Acl(readRoles: set<Role>, writeRoles: set<Role>)

  /** The two columns of the editor. */
  datatype RoleKind = Group | User

  // ---------------------------------------------------------------------------
  // Role predicates
  // ---------------------------------------------------------------------------

  /** `/^ROLE_USER_\w+/.test(role)`: the prefix and at least one word character after it. */
  predicate IsUserRole(role: Role) {
    StartsWith(role, "ROLE_USER_") && |role| > 10 && IsWordChar(role[10])
  }

  /** `/^ROLE_\w+/.test(role)`. */
  predicate IsRoleLike(role: Role) {
    StartsWith(role, "ROLE_") && |role| > 5 && IsWordChar(role[5])
  }

  /** `/^ROLE_USER\w+/.test(role)`: note that no underscore is required after `ROLE_USER`. */
  predicate LooksLikeOwnRole(role: Role) {
    StartsWith(role, "ROLE_USER") && |role| > 9 && IsWordChar(role[9])
  }

  /** Whether a typed input may be created as a new option in the column of `kind`. */
  function IsValidNewOption(kind: RoleKind, input: string): (valid: bool)
    ensures kind == RoleKind.User ==> (valid <==> IsUserRole(input))
    ensures kind == Group ==> (valid <==> IsRoleLike(input) && !IsUserRole(input))
    ensures valid ==> IsRoleLike(input)
  {
    var validUserRole := IsUserRole(input);
    var validRole := IsRoleLike(input);
    assert validUserRole ==> input[..5] == input[..10][..5] && input[5] == 'U';
    if kind == Group then validRole && !validUserRole else validUserRole
  }

  /** No input is a valid new option in both columns. */
  lemma NewOptionColumnsDisjoint(input: string)
    ensures !(IsValidNewOption(Group, input) && IsValidNewOption(RoleKind.User, input))
  {
  }

  /**
   * The current user's own role: the first of their roles that matches
   * `^ROLE_USER\w+`, or "Unknown" when there is no real user or no such role.
   */
  function GetUserRole(user: UserState): (r: string)
    ensures r == "Unknown" <==> !user.RealUser? || forall x :: x in user.user.roles ==> !LooksLikeOwnRole(x)
    ensures r != "Unknown" ==> r in user.user.roles && LooksLikeOwnRole(r)
    ensures r != "Unknown" ==>
      exists k :: (0 <= k < |user.user.roles| && user.user.roles[k] == r
        && forall j :: 0 <= j < k ==> !LooksLikeOwnRole(user.user.roles[j]))
  {
    if !user.RealUser? then "Unknown"
    else
      var roles := user.user.roles;
      var k := Finding.FirstIndex(roles, LooksLikeOwnRole);
      assert !LooksLikeOwnRole("Unknown");
      if k < |roles| then roles[k] else "Unknown"
  }

  // ---------------------------------------------------------------------------
  // splitAcl
  // ---------------------------------------------------------------------------

  /** Splits an ACL into its group part and its user part. */
  function SplitAcl(acl: Acl): (parts: (Acl, Acl))
    ensures parts.0.readRoles + parts.1.readRoles == acl.readRoles
    ensures parts.0.writeRoles + parts.1.writeRoles == acl.writeRoles
    ensures parts.0.readRoles !! parts.1.readRoles && parts.0.writeRoles !! parts.1.writeRoles
    ensures forall r :: r in parts.1.readRoles <==> r in acl.readRoles && IsUserRole(r)
    ensures forall r :: r in parts.1.writeRoles <==> r in acl.writeRoles && IsUserRole(r)
  {
    var groupAcl := Acl(
      set r | r in acl.readRoles && !IsUserRole(r),
      set r | r in acl.writeRoles && !IsUserRole(r));
    var userAcl := Acl(
      set r | r in acl.readRoles && IsUserRole(r),
      set r | r in acl.writeRoles && IsUserRole(r));
    (groupAcl, userAcl)
  }

  // ---------------------------------------------------------------------------
  // Known roles and labels
  // ---------------------------------------------------------------------------

  /** The keys of the built-in group table, in declaration order. */
  const KNOWN_GROUPS: seq<Role> :=
    [ANONYMOUS, USER, "ROLE_TOBIRA_MODERATOR", "ROLE_TOBIRA_STUDIO", "ROLE_TOBIRA_EDITOR"]

  /** The keys of the placeholder user table, in declaration order. */
  const KNOWN_USERS: seq<Role> :=
    ["ROLE_USER_SABINE", "ROLE_USER_BJÖRK", "ROLE_USER_MORGAN", "ROLE_USER_JOSE"]

  /** The translation key of each built-in group; only those groups have one. */
  function GroupLabelKey(role: Role): (key: Option<string>)
    ensures key.Some? <==> role in KNOWN_GROUPS
    ensures key.Some? ==> StartsWith(key.value, "acl.groups.")
  {
    if role == ANONYMOUS then Some("acl.groups.everyone")
    else if role == USER then Some("acl.groups.logged-in-users")
    else if role == "ROLE_TOBIRA_MODERATOR" then Some("acl.groups.moderators")
    else if role == "ROLE_TOBIRA_STUDIO" then Some("acl.groups.studio-users")
    else if role == "ROLE_TOBIRA_EDITOR" then Some("acl.groups.editors")
    else None
  }

  /** The display names of the placeholder users the user column offers; only those users have one. */
  function KnownUserName(role: Role): (name: Option<string>)
    ensures name.Some? <==> role in KNOWN_USERS
    ensures name.Some? ==> name.value != ""
  {
    if role == "ROLE_USER_SABINE" then Some("Sabine Rudolfs")
    else if role == "ROLE_USER_BJÖRK" then Some("Prof. Björk Guðmundsdóttir")
    else if role == "ROLE_USER_MORGAN" then Some("Morgan Yu")
    else if role == "ROLE_USER_JOSE" then Some("José Carreño Quiñones")
    else None
  }

  /**
   * The label of a role in the column of `kind`; `t` is the translation
   * function. The user-admin role has its own translated label, a known role
   * its table entry, and any other role is shown as itself.
   */
  function GetLabel(role: Role, kind: RoleKind, t: string -> string): (shown: string)
    ensures role == USER_ADMIN ==> shown == t("acl.admin-user")
    ensures role != USER_ADMIN && kind == Group && GroupLabelKey(role).Some? ==> shown == t(GroupLabelKey(role).value)
    ensures role != USER_ADMIN && kind == RoleKind.User && KnownUserName(role).Some? ==> shown == KnownUserName(role).value
    ensures role != USER_ADMIN && (kind == Group ==> GroupLabelKey(role).None?) && (kind == RoleKind.User ==> KnownUserName(role).None?)
      ==> shown == role
  {
    if role == USER_ADMIN then t("acl.admin-user")
    else match kind
      case Group => (match GroupLabelKey(role) case Some(key) => t(key) case None => role)
      case User => (match KnownUserName(role) case Some(name) => name case None => role)
  }

  // ---------------------------------------------------------------------------
  // The DAG of the built-in groups
  // ---------------------------------------------------------------------------

  /** The direct supersets `buildDag` gives a group. */
  function DirectSupersets(role: Role): (sups: seq<Role>)
    ensures role == ANONYMOUS <==> sups == []
  {
    if role == ANONYMOUS then []
    else if role == USER then [ANONYMOUS]
    else [USER]
  }

  ghost function BuiltVertices(keys: seq<Role>): map<Role, seq<Role>> {
    map g | g in keys :: DirectSupersets(g)
  }

  /** `buildDag`: one vertex per table key, inserted in key order. */
  method BuildDag(keys: seq<Role>) returns (d: Dag)
    ensures d.roles == keys
    ensures d.vertices == BuiltVertices(keys)
  {
    var vertices: map<Role, seq<Role>> := map[];
    for i := 0 to |keys|
      invariant vertices == BuiltVertices(keys[..i])
    {
      var groupRole := keys[i];
      var supersets: seq<Role>;
      if groupRole == ANONYMOUS {
        supersets := [];
      } else if groupRole == USER {
        supersets := [ANONYMOUS];
      } else {
        supersets := [USER];
      }
      vertices := vertices[groupRole := supersets];
      assert keys[..i + 1] == keys[..i] + [groupRole];
    }
    assert keys[..|keys|] == keys;
    d := Dag(keys, vertices);
  }

  /** Every edge of the built DAG ends at ANONYMOUS or USER. */
  lemma BuiltEdgeTargets(keys: seq<Role>, p: seq<Role>, i: nat)
    requires IsPath(Dag(keys, BuiltVertices(keys)), p) && 1 <= i < |p|
    ensures p[i] == ANONYMOUS || p[i] == USER
    ensures p[i - 1] == ANONYMOUS ==> false
    ensures p[i - 1] == USER ==> p[i] == ANONYMOUS
    ensures p[i - 1] != USER ==> p[i] == USER
  {
    assert p[i - 1] in BuiltVertices(keys) && p[i] in BuiltVertices(keys)[p[i - 1]];
  }

  /** A table whose keys are distinct and include ANONYMOUS and USER yields a valid DAG. */
  lemma BuiltDagValid(keys: seq<Role>)
    requires Distinct(keys) && ANONYMOUS in keys && USER in keys
    ensures Valid(Dag(keys, BuiltVertices(keys)))
  {
    var d := Dag(keys, BuiltVertices(keys));
    var rank := map g | g in keys :: if g == ANONYMOUS then 0 else if g == USER then 1 else 2;
    assert Ranked(d, rank);
  }

  /**
   * In the built DAG, ANONYMOUS has no superset, USER has only ANONYMOUS, and
   * every other group has exactly USER and ANONYMOUS.
   */
  lemma {:induction false} BuiltSupersets(keys: seq<Role>, start: Role, r: Role)
    requires start in keys && ANONYMOUS in keys && USER in keys
    ensures Reaches(Dag(keys, BuiltVertices(keys)), start, r) <==>
      if start == ANONYMOUS then false
      else if start == USER then r == ANONYMOUS
      else r == USER || r == ANONYMOUS
  {
    var d := Dag(keys, BuiltVertices(keys));
    if Reaches(d, start, r) {
      var p :| IsPath(d, p) && |p| >= 2 && p[0] == start && p[|p| - 1] == r;
      BuiltEdgeTargets(keys, p, 1);
      if |p| > 2 {
        BuiltEdgeTargets(keys, p, 2);
        if |p| > 3 {
          BuiltEdgeTargets(keys, p, 3);
        }
      }
      BuiltEdgeTargets(keys, p, |p| - 1);
    } else if start != ANONYMOUS {
      if start == USER {
        ReachesEdge(d, USER, ANONYMOUS);
      } else {
        ReachesEdge(d, start, USER);
        ReachesExtend(d, start, USER, ANONYMOUS);
      }
    }
  }

  /** The built-in table satisfies the DAG invariants. */
  lemma KnownGroupsValid()
    ensures Distinct(KNOWN_GROUPS) && ANONYMOUS in KNOWN_GROUPS && USER in KNOWN_GROUPS
    ensures Valid(Dag(KNOWN_GROUPS, BuiltVertices(KNOWN_GROUPS)))
  {
    BuiltDagValid(KNOWN_GROUPS);
  }

  // ---------------------------------------------------------------------------
  // supersetList
  // ---------------------------------------------------------------------------

  /** `sub` is `s` with some elements left out: the rest keep their order. */
  ghost predicate Subsequence<T>(sub: seq<T>, s: seq<T>) {
    if |sub| == 0 then true
    else if |s| == 0 then false
    else (sub[0] == s[0] && Subsequence(sub[1..], s[1..])) || Subsequence(sub, s[1..])
  }

  /** In a subsequence, every two elements appear in the original in the same order. */
  lemma {:induction false} SubsequenceOrder<T>(sub: seq<T>, s: seq<T>, i: int, j: int)
    requires Subsequence(sub, s) && 0 <= i < j < |sub|
    ensures exists a, b :: 0 <= a < b < |s| && s[a] == sub[i] && s[b] == sub[j]
    decreases |s|
  {
    if sub[0] == s[0] && Subsequence(sub[1..], s[1..]) {
      if i == 0 {
        var b := SubsequenceIndex(sub[1..], s[1..], j - 1);
        assert s[b + 1] == sub[j];
      } else {
        SubsequenceOrder(sub[1..], s[1..], i - 1, j - 1);
        var a, b :| 0 <= a < b < |s[1..]| && s[1..][a] == sub[1..][i - 1] && s[1..][b] == sub[1..][j - 1];
        assert s[a + 1] == sub[i] && s[b + 1] == sub[j];
      }
    } else {
      SubsequenceOrder(sub, s[1..], i, j);
      var a, b :| 0 <= a < b < |s[1..]| && s[1..][a] == sub[i] && s[1..][b] == sub[j];
      assert s[a + 1] == sub[i] && s[b + 1] == sub[j];
    }
  }

  /** Every element of a subsequence sits at some index of the original. */
  lemma {:induction false} SubsequenceIndex<T>(sub: seq<T>, s: seq<T>, i: int) returns (a: int)
    requires Subsequence(sub, s) && 0 <= i < |sub|
    ensures 0 <= a < |s| && s[a] == sub[i]
    decreases |s|
  {
    if sub[0] == s[0] && Subsequence(sub[1..], s[1..]) {
      if i == 0 {
        a := 0;
      } else {
        a := SubsequenceIndex(sub[1..], s[1..], i - 1);
        a := a + 1;
      }
    } else {
      a := SubsequenceIndex(sub, s[1..], i);
      a := a + 1;
    }
  }

  /**
   * The supersets kept for the warning: selected for reading, and also for
   * writing unless the subset role is read-only. The filter keeps their order.
   */
  function KeepSelected(supersets: seq<Role>, acl: Acl, subsetRole: Role): (kept: seq<Role>)
    ensures forall r :: r in kept <==>
      r in supersets && r in acl.readRoles && (subsetRole in acl.writeRoles ==> r in acl.writeRoles)
    ensures Distinct(supersets) ==> Distinct(kept)
    ensures Subsequence(kept, supersets)
  {
    var isReadOnly := subsetRole !in acl.writeRoles;
    if |supersets| == 0 then []
    else
      var rest := KeepSelected(supersets[1..], acl, subsetRole);
      var s := supersets[0];
      assert forall r :: r in supersets <==> r == s || r in supersets[1..];
      assert Distinct(supersets) ==> s !in supersets[1..] && Distinct(supersets[1..]) by {
        if Distinct(supersets) {
          forall i | 0 <= i < |supersets[1..]|
            ensures supersets[1..][i] != s
          {
            assert supersets[1..][i] == supersets[i + 1];
          }
          forall i, j | 0 <= i < j < |supersets[1..]|
            ensures supersets[1..][i] != supersets[1..][j]
          {
            assert supersets[1..][i] == supersets[i + 1] && supersets[1..][j] == supersets[j + 1];
          }
        }
      }
      if s in acl.readRoles && (isReadOnly || s in acl.writeRoles) then
        assert ([s] + rest)[1..] == rest;
        [s] + rest
      else rest
  }

  /**
   * The labels of the other selected groups that include `subsetRole` with at
   * least its access level; `kept` are their roles in the order of the labels,
   * which is the order of `supersets`, the list `SupersetsOf` gave.
   */
  method SupersetList(d: Dag, subsetRole: Role, acl: Acl, t: string -> string)
    returns (supersets: seq<Role>, kept: seq<Role>, labels: seq<string>)
    requires Valid(d)
    ensures forall r :: r in supersets <==> IsSupersetOf(d, subsetRole, r)
    ensures forall r :: r in kept <==>
      IsSupersetOf(d, subsetRole, r) && r in acl.readRoles && (subsetRole in acl.writeRoles ==> r in acl.writeRoles)
    ensures Distinct(kept)
    ensures Subsequence(kept, supersets)
    ensures |labels| == |kept| && forall i :: 0 <= i < |kept| ==> labels[i] == GetLabel(kept[i], Group, t)
  {
    supersets := SupersetsOf(d, subsetRole);
    kept := KeepSelected(supersets, acl, subsetRole);
    labels := seq(|kept|, i requires 0 <= i < |kept| => GetLabel(kept[i], Group, t));
  }
}
