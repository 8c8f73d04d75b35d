/**
 * The group superset DAG of the ACL editor: which groups include which, the
 * search for all supersets of a group, and the topological sort that puts
 * large groups first.
 *
 * The DAG is an explicit value. `roles` is the insertion order of the map's
 * keys, and each `vertices[r]` lists the direct supersets of `r` in their
 * insertion order. Both orders decide the output order of the two queries.
 */
module GroupDag {
  import opened Roles
  import Wrappers

  datatype Dag = Dag(roles: seq<Role>, vertices: map<Role, seq<Role>>)

  /** A selectable entry: a role and its display label. */
  datatype SelectOption = SelectOption(value: Role, labelText: string)

  ghost predicate Distinct<T>(s: seq<T>) {
    forall i, j :: 0 <= i < j < |s| ==> s[i] != s[j]
  }

  ghost predicate DistinctValues(options: seq<SelectOption>) {
    forall i, j :: 0 <= i < j < |options| ==> options[i].value != options[j].value
  }

  /** `rank` strictly decreases along every direct-superset edge, so there is no cycle. */
  ghost predicate Ranked(d: Dag, rank: map<Role, nat>) {
    && d.vertices.Keys <= rank.Keys
    && forall v, s :: v in d.vertices && s in d.vertices[v] ==> s in rank && rank[s] < rank[v]
  }

  /** Every direct superset is itself a known group. */
  ghost predicate EdgesClosed(d: Dag) {
    forall v, s :: v in d.vertices && s in d.vertices[v] ==> s in d.vertices
  }

  /**
   * The DAG invariants: the key order lists every key once, every edge ends at
   * a known group, the graph is acyclic, ANONYMOUS has no superset and every
   * other group has a direct superset (so all paths lead to ANONYMOUS).
   */
  ghost predicate Valid(d: Dag) {
    && Distinct(d.roles)
    && (forall r :: r in d.roles <==> r in d.vertices)
    && (forall v :: v in d.vertices ==> Distinct(d.vertices[v]))
    && EdgesClosed(d)
    && ANONYMOUS in d.vertices
    && d.vertices[ANONYMOUS] == []
    && (forall v :: v in d.vertices && v != ANONYMOUS ==> |d.vertices[v]| > 0)
    && exists rank :: Ranked(d, rank)
  }

  // ---------------------------------------------------------------------------
  // Reachability through direct-superset edges
  // ---------------------------------------------------------------------------

  ghost predicate IsPath(d: Dag, p: seq<Role>) {
    && |p| >= 1
    && forall i :: 0 <= i < |p| - 1 ==> p[i] in d.vertices && p[i + 1] in d.vertices[p[i]]
  }

  /** `b` is a (transitive, strict) superset of `a`: a path of one or more edges leads from `a` to `b`. */
  ghost predicate Reaches(d: Dag, a: Role, b: Role) {
    exists p :: IsPath(d, p) && |p| >= 2 && p[0] == a && p[|p| - 1] == b
  }

  /** What `supersetsOf(start)` must return as a set. */
  ghost predicate IsSupersetOf(d: Dag, start: Role, r: Role) {
    if start in d.vertices then Reaches(d, start, r)
    else start != ADMIN && (r == ANONYMOUS || r == USER)
  }

  lemma ReachesEdge(d: Dag, a: Role, b: Role)
    requires a in d.vertices && b in d.vertices[a]
    ensures Reaches(d, a, b)
  {
    var p := [a, b];
    assert IsPath(d, p);
  }

  lemma ReachesExtend(d: Dag, a: Role, b: Role, c: Role)
    requires Reaches(d, a, b) && b in d.vertices && c in d.vertices[b]
    ensures Reaches(d, a, c)
  {
    var p :| IsPath(d, p) && |p| >= 2 && p[0] == a && p[|p| - 1] == b;
    var q := p + [c];
    assert IsPath(d, q);
  }

  lemma ReachesPrepend(d: Dag, a: Role, b: Role, c: Role)
    requires a in d.vertices && b in d.vertices[a] && Reaches(d, b, c)
    ensures Reaches(d, a, c)
  {
    var p :| IsPath(d, p) && |p| >= 2 && p[0] == b && p[|p| - 1] == c;
    var q := [a] + p;
    assert IsPath(d, q);
  }

  lemma {:induction false} RankAlongPath(d: Dag, rank: map<Role, nat>, p: seq<Role>)
    requires Ranked(d, rank) && IsPath(d, p) && |p| >= 2
    ensures p[0] in rank && p[|p| - 1] in rank && rank[p[|p| - 1]] < rank[p[0]]
  {
    if |p| > 2 {
      var q := p[..|p| - 1];
      assert IsPath(d, q);
      RankAlongPath(d, rank, q);
    }
  }

  /** Acyclicity: no group is a strict superset of itself. */
  lemma NoSelfReach(d: Dag, a: Role)
    requires Valid(d)
    ensures !Reaches(d, a, a)
  {
    if Reaches(d, a, a) {
      var rank :| Ranked(d, rank);
      var p :| IsPath(d, p) && |p| >= 2 && p[0] == a && p[|p| - 1] == a;
      RankAlongPath(d, rank, p);
    }
  }

  lemma NoCycleThrough(d: Dag, a: Role, b: Role)
    requires Valid(d) && a in d.vertices && b in d.vertices[a]
    ensures b != a && !Reaches(d, b, a)
  {
    NoSelfReach(d, a);
    ReachesEdge(d, a, b);
    if Reaches(d, b, a) {
      ReachesPrepend(d, a, b, a);
    }
  }

  /** A set that holds the direct supersets of `start` and is closed under edges holds all its supersets. */
  lemma {:induction false} ReachClosed(d: Dag, start: Role, closed: set<Role>, b: Role)
    requires start in d.vertices
    requires forall s :: s in d.vertices[start] ==> s in closed
    requires forall v, s :: v in closed && v in d.vertices && s in d.vertices[v] ==> s in closed
    requires Reaches(d, start, b)
    ensures b in closed
  {
    var p :| IsPath(d, p) && |p| >= 2 && p[0] == start && p[|p| - 1] == b;
    var i := 1;
    while i < |p| - 1
      invariant 1 <= i <= |p| - 1
      invariant p[i] in closed
    {
      i := i + 1;
    }
  }

  // ---------------------------------------------------------------------------
  // supersetsOf
  // ---------------------------------------------------------------------------

  /**
   * All groups that include `start`. An unknown group is assumed to be included
   * in ANONYMOUS and USER, except the admin role, which never gets supersets.
   * For a known group this is a depth-first search with a stack; a vertex is
   * expanded only when it is not yet in the result.
   */
  method SupersetsOf(d: Dag, start: Role) returns (supersets: seq<Role>)
    requires Valid(d)
    ensures forall r :: r in supersets <==> IsSupersetOf(d, start, r)
    ensures start !in d.vertices ==> supersets == (if start == ADMIN then [] else [ANONYMOUS, USER])
    ensures start in d.vertices ==> start !in supersets
    ensures Distinct(supersets)
  {
    if start !in d.vertices {
      supersets := if start == ADMIN then [] else [ANONYMOUS, USER];
      return;
    }
    NoSelfReach(d, start);
    supersets := Search(d, start);
  }

  /** Pushes each element of `items` in order. */
  method PushAll(stack: seq<Role>, items: seq<Role>) returns (next: seq<Role>)
    ensures next == stack + items
  {
    next := stack;
    for k := 0 to |items|
      invariant next == stack + items[..k]
    {
      next := next + [items[k]];
    }
    assert items[..|items|] == items;
  }

  /** The direct supersets of `start`, or of any group reachable from it, are reachable from `start`. */
  lemma ReachesDirect(d: Dag, start: Role, v: Role)
    requires v in d.vertices && (v == start || Reaches(d, start, v))
    ensures forall s :: s in d.vertices[v] ==> Reaches(d, start, s)
  {
    forall s | s in d.vertices[v]
      ensures Reaches(d, start, s)
    {
      if v == start {
        ReachesEdge(d, start, s);
      } else {
        ReachesExtend(d, start, v, s);
      }
    }
  }

  /**
   * The state of the search: `seen` is the set of collected groups, all of
   * them supersets of `start`; once `start` has been expanded, everything on
   * the stack is a superset too, and every direct superset of `start` or of a
   * collected group is collected or still on the stack.
   */
  ghost predicate SearchInv(d: Dag, start: Role, supersets: seq<Role>, seen: set<Role>, stack: seq<Role>, expanded: bool) {
    && start in d.vertices
    && (forall x :: x in seen <==> x in supersets)
    && (forall x :: x in seen ==> x in d.vertices)
    && Distinct(supersets)
    && (forall x :: x in stack ==> x in d.vertices)
    && (!expanded ==> stack == [start] && supersets == [])
    && (expanded ==> forall x :: x in stack ==> Reaches(d, start, x))
    && (forall x :: x in supersets ==> Reaches(d, start, x))
    && (expanded ==> forall s :: s in d.vertices[start] ==> s in seen || s in stack)
    && (forall v, s :: v in seen && s in d.vertices[v] ==> s in seen || s in stack)
  }

  /** Popping a group that is already collected keeps the state. */
  lemma SkipStep(d: Dag, start: Role, supersets: seq<Role>, seen: set<Role>, stack: seq<Role>, expanded: bool, v: Role)
    requires SearchInv(d, start, supersets, seen, stack + [v], expanded)
    requires v in supersets
    ensures expanded
    ensures SearchInv(d, start, supersets, seen, stack, expanded)
  {
    assert forall x :: x in stack + [v] <==> x == v || x in stack;
  }

  /**
   * Popping a group that is not collected collects it (unless it is `start`)
   * and pushes its direct supersets. After the first expansion the popped
   * group is a new known group, which bounds the number of steps.
   */
  lemma ExpandStep(d: Dag, start: Role, supersets: seq<Role>, seen: set<Role>, stack: seq<Role>, expanded: bool, v: Role)
    requires EdgesClosed(d) && !Reaches(d, start, start)
    requires SearchInv(d, start, supersets, seen, stack + [v], expanded)
    requires v !in supersets
    ensures expanded ==> v != start && v in d.vertices && v !in seen
    ensures SearchInv(d, start, if v != start then supersets + [v] else supersets,
      if v != start then seen + {v} else seen, stack + d.vertices[v], true)
  {
    assert forall x :: x in stack + [v] <==> x == v || x in stack;
    if v == start {
      assert !expanded;
      ExpandStart(d, start);
    } else {
      assert expanded;
      ExpandCollected(d, start, supersets, seen, stack, v);
    }
  }

  /** The first step pops `start` and pushes its direct supersets. */
  lemma ExpandStart(d: Dag, start: Role)
    requires EdgesClosed(d) && start in d.vertices
    ensures SearchInv(d, start, [], {}, d.vertices[start], true)
  {
    ReachesDirect(d, start, start);
  }

  /** A later step collects the popped superset and pushes its direct supersets. */
  lemma ExpandCollected(d: Dag, start: Role, supersets: seq<Role>, seen: set<Role>, stack: seq<Role>, v: Role)
    requires EdgesClosed(d)
    requires SearchInv(d, start, supersets, seen, stack + [v], true)
    requires v !in supersets && v != start
    requires forall x :: x in stack + [v] <==> x == v || x in stack
    ensures SearchInv(d, start, supersets + [v], seen + {v}, stack + d.vertices[v], true)
  {
    var stack' := stack + d.vertices[v];
    assert forall x :: x in stack' <==> x in stack || x in d.vertices[v];
    ReachesDirect(d, start, v);
  }

  /** The depth-first search of `supersetsOf` for a known group. */
  method Search(d: Dag, start: Role) returns (supersets: seq<Role>)
    requires EdgesClosed(d) && start in d.vertices && !Reaches(d, start, start)
    ensures forall r :: r in supersets <==> Reaches(d, start, r)
    ensures Distinct(supersets)
  {
    supersets := [];
    var stack := [start];
    ghost var seen: set<Role> := {};
    ghost var expanded := false;
    while |stack| > 0
      invariant SearchInv(d, start, supersets, seen, stack, expanded)
      decreases (if expanded then 0 else 1), d.vertices.Keys - seen, |stack|
    {
      var v := stack[|stack| - 1];
      ghost var popped := stack;
      stack := stack[..|stack| - 1];
      assert popped == stack + [v];
      if v in supersets {
        SkipStep(d, start, supersets, seen, stack, expanded, v);
        continue;
      }
      ExpandStep(d, start, supersets, seen, stack, expanded, v);
      stack := PushAll(stack, d.vertices[v]);
      if v != start {
        supersets := supersets + [v];
        seen := seen + {v};
      }
      expanded := true;
    }
    forall b | Reaches(d, start, b)
      ensures b in supersets
    {
      ReachClosed(d, start, seen, b);
    }
  }

  // ---------------------------------------------------------------------------
  // sort
  // ---------------------------------------------------------------------------

  /** `options.find(o => o.value === v)`: the first option with that role. */
  function FindByValue(options: seq<SelectOption>, v: Role): (r: Wrappers.Option<SelectOption>)
    ensures r.Some? ==> r.value in options && r.value.value == v
    ensures r.None? <==> forall o :: o in options ==> o.value != v
    ensures DistinctValues(options) && r.Some? ==> forall o :: o in options && o.value == v ==> o == r.value
  {
    if |options| == 0 then Wrappers.None
    else if options[0].value == v then Wrappers.Some(options[0])
    else
      var r := FindByValue(options[1..], v);
      assert forall o :: o in options[1..] ==> o in options;
      r
  }

  /** The option found for each role of `order` in turn, skipping roles without one. */
  function Found(order: seq<Role>, options: seq<SelectOption>): (found: seq<SelectOption>)
    ensures forall o :: o in found ==> o in options && o.value in order
  {
    if |order| == 0 then []
    else
      (match FindByValue(options, order[0])
       case Some(o) => [o]
       case None => []) + Found(order[1..], options)
  }

  /** With distinct values, exactly the options whose role is in `order` are found. */
  lemma {:induction false} FoundMembers(order: seq<Role>, options: seq<SelectOption>)
    requires DistinctValues(options)
    ensures forall o :: o in Found(order, options) <==> o in options && o.value in order
  {
    if |order| > 0 {
      FoundMembers(order[1..], options);
      assert forall v :: v in order <==> v == order[0] || v in order[1..];
    }
  }

  /** Finding along two orders one after the other. */
  lemma {:induction false} FoundAppend(a: seq<Role>, b: seq<Role>, options: seq<SelectOption>)
    ensures Found(a + b, options) == Found(a, options) + Found(b, options)
  {
    if |a| > 0 {
      assert (a + b)[1..] == a[1..] + b;
      FoundAppend(a[1..], b, options);
    } else {
      assert a + b == b;
    }
  }

  /** Options lists that agree on every lookup give the same found options. */
  lemma {:induction false} FoundSame(order: seq<Role>, a: seq<SelectOption>, b: seq<SelectOption>)
    requires forall v :: FindByValue(a, v) == FindByValue(b, v)
    ensures Found(order, a) == Found(order, b)
  {
    if |order| > 0 {
      FoundSame(order[1..], a, b);
    }
  }

  /** The options whose role is not a known group, in input order. */
  ghost function Unknown(d: Dag, options: seq<SelectOption>): seq<SelectOption> {
    if |options| == 0 then []
    else
      var last := options[|options| - 1];
      var rest := Unknown(d, options[..|options| - 1]);
      if last.value in d.vertices then rest else rest + [last]
  }

  /** `Unknown` keeps exactly the options with an unknown role. */
  lemma {:induction false} UnknownMembers(d: Dag, options: seq<SelectOption>)
    ensures forall o :: o in Unknown(d, options) <==> o in options && o.value !in d.vertices
  {
    if |options| > 0 {
      var init := options[..|options| - 1];
      UnknownMembers(d, init);
      assert options == init + [options[|options| - 1]];
    }
  }

  /** `Unknown` keeps the roles of distinct options distinct. */
  lemma {:induction false} UnknownDistinct(d: Dag, options: seq<SelectOption>)
    requires DistinctValues(options)
    ensures DistinctValues(Unknown(d, options))
  {
    if |options| > 0 {
      var last := options[|options| - 1];
      var init := options[..|options| - 1];
      assert DistinctValues(init) by {
        forall i, j | 0 <= i < j < |init|
          ensures init[i].value != init[j].value
        {
          assert init[i] == options[i] && init[j] == options[j];
        }
      }
      UnknownDistinct(d, init);
      UnknownMembers(d, init);
      var rest := Unknown(d, init);
      if last.value !in d.vertices {
        forall o | o in rest
          ensures o.value != last.value
        {
          var i :| 0 <= i < |init| && init[i] == o;
          assert options[i] == o;
        }
        var r := rest + [last];
        forall i, j | 0 <= i < j < |r|
          ensures r[i].value != r[j].value
        {
          assert r[i] == rest[i] && r[i] in rest;
          if j < |rest| {
            assert r[j] == rest[j];
          }
        }
      }
    }
  }

  lemma UnknownSnoc(d: Dag, options: seq<SelectOption>, o: SelectOption)
    ensures Unknown(d, options + [o]) == Unknown(d, options) + (if o.value in d.vertices then [] else [o])
  {
    assert (options + [o])[..|options|] == options;
  }

  /** A prefix one element longer is the prefix and that element. */
  lemma PrefixSnoc<T>(s: seq<T>, i: nat)
    requires i < |s|
    ensures s[..i + 1] == s[..i] + [s[i]]
  {
  }

  /** Direct subsets of every group, as `sort` builds them: `inverse[s]` lists `x` when `s` is a direct superset of `x`. */
  ghost predicate IsInverse(d: Dag, inverse: map<Role, seq<Role>>) {
    && inverse.Keys == d.vertices.Keys
    && (forall s :: s in inverse ==> Distinct(inverse[s]))
    && (forall s, x :: s in inverse ==> (x in inverse[s] <==> x in d.vertices && s in d.vertices[x]))
  }

  /** The groups of `roles` that have `s` as a direct superset, in the order of `roles`. */
  ghost function SubsetsIn(d: Dag, roles: seq<Role>, s: Role): (subsets: seq<Role>)
    ensures forall x :: x in subsets <==> x in roles && x in d.vertices && s in d.vertices[x]
  {
    if |roles| == 0 then []
    else
      var last := roles[|roles| - 1];
      var init := roles[..|roles| - 1];
      assert forall x :: x in roles <==> x in init || x == last;
      SubsetsIn(d, init, s) + (if last in d.vertices && s in d.vertices[last] then [last] else [])
  }

  /** The subset lists `sort` builds: for every known group, its direct subsets in key order. */
  ghost function Inverse(d: Dag): map<Role, seq<Role>> {
    map s | s in d.vertices :: SubsetsIn(d, d.roles, s)
  }

  lemma {:induction false} SubsetsInDistinct(d: Dag, roles: seq<Role>, s: Role)
    requires Distinct(roles)
    ensures Distinct(SubsetsIn(d, roles, s))
  {
    if |roles| > 0 {
      var init := roles[..|roles| - 1];
      var last := roles[|roles| - 1];
      assert Distinct(init) by {
        forall i, j | 0 <= i < j < |init|
          ensures init[i] != init[j]
        {
          assert init[i] == roles[i] && init[j] == roles[j];
        }
      }
      assert last !in init by {
        forall i | 0 <= i < |init|
          ensures init[i] != last
        {
          assert init[i] == roles[i];
        }
      }
      SubsetsInDistinct(d, init, s);
    }
  }

  /** `Inverse(d)` lists each group's direct subsets, each once. */
  lemma InverseIsInverse(d: Dag)
    requires Valid(d)
    ensures IsInverse(d, Inverse(d))
  {
    forall s | s in Inverse(d)
      ensures Distinct(Inverse(d)[s])
    {
      SubsetsInDistinct(d, d.roles, s);
    }
  }

  /** The lists built from the first `i` keys hold each group once. */
  lemma InverseSoFarDistinct(d: Dag, inverse: map<Role, seq<Role>>, i: nat)
    requires Valid(d) && i <= |d.roles|
    requires forall s :: s in inverse ==> inverse[s] == SubsetsIn(d, d.roles[..i], s)
    ensures forall s :: s in inverse ==> Distinct(inverse[s])
  {
    assert Distinct(d.roles[..i]) by {
      forall j, k | 0 <= j < k < i
        ensures d.roles[..i][j] != d.roles[..i][k]
      {
      }
    }
    forall s | s in inverse
      ensures Distinct(inverse[s])
    {
      SubsetsInDistinct(d, d.roles[..i], s);
    }
  }

  /** Lists built from all keys are `Inverse(d)`. */
  lemma InverseComplete(d: Dag, inverse: map<Role, seq<Role>>)
    requires inverse.Keys == d.vertices.Keys
    requires forall s :: s in inverse ==> inverse[s] == SubsetsIn(d, d.roles[..|d.roles|], s)
    ensures inverse == Inverse(d)
  {
    assert d.roles[..|d.roles|] == d.roles;
    forall s | s in inverse
      ensures inverse[s] == Inverse(d)[s]
    {
    }
  }

  /** One round of the inverse construction extends every list as `SubsetsIn` does for one more key. */
  lemma InverseStep(d: Dag, inverse: map<Role, seq<Role>>, next: map<Role, seq<Role>>, i: nat)
    requires Valid(d) && i < |d.roles|
    requires forall s :: s in inverse ==> inverse[s] == SubsetsIn(d, d.roles[..i], s)
    requires next.Keys == inverse.Keys
    requires forall s :: s in next ==>
      next[s] == inverse[s] + (if s in d.vertices[d.roles[i]] && d.roles[i] !in inverse[s] then [d.roles[i]] else [])
    ensures forall s :: s in next ==> next[s] == SubsetsIn(d, d.roles[..i + 1], s)
  {
    var role := d.roles[i];
    assert role in d.vertices;
    assert role !in d.roles[..i] by {
      forall k | 0 <= k < i
        ensures d.roles[k] != role
      {
      }
    }
    assert d.roles[..i + 1][..i] == d.roles[..i];
  }

  /** One round of the inverse construction: `role` joins the subset list of each of its direct supersets (a set insertion). */
  method AddToSupersets(d: Dag, inverse: map<Role, seq<Role>>, role: Role) returns (next: map<Role, seq<Role>>)
    requires Valid(d) && role in d.vertices
    requires inverse.Keys == d.vertices.Keys
    requires forall s :: s in inverse ==> Distinct(inverse[s])
    ensures next.Keys == inverse.Keys
    ensures forall s :: s in next ==> Distinct(next[s])
    ensures forall s, x :: s in next ==> (x in next[s] <==> x in inverse[s] || (x == role && s in d.vertices[role]))
    ensures forall s :: s in next ==>
      next[s] == inverse[s] + (if s in d.vertices[role] && role !in inverse[s] then [role] else [])
  {
    next := inverse;
    var sups := d.vertices[role];
    for j := 0 to |sups|
      invariant next.Keys == inverse.Keys
      invariant forall s :: s in next ==>
        next[s] == inverse[s] + (if s in sups[..j] && role !in inverse[s] then [role] else [])
    {
      var s := sups[j];
      assert s !in sups[..j] by {
        forall k | 0 <= k < j
          ensures sups[k] != s
        {
        }
      }
      if s in next && role !in next[s] {
        next := next[s := next[s] + [role]];
      }
      PrefixSnoc(sups, j);
    }
    assert sups[..|sups|] == sups;
    forall s | s in next
      ensures Distinct(next[s])
      ensures forall x :: x in next[s] <==> x in inverse[s] || (x == role && s in d.vertices[role])
    {
      AddedOnce(inverse[s], next[s], role, s in d.vertices[role]);
    }
  }

  /** Adding an element to a list unless it is there keeps the list free of duplicates. */
  lemma AddedOnce(list: seq<Role>, next: seq<Role>, role: Role, add: bool)
    requires Distinct(list)
    requires next == list + (if add && role !in list then [role] else [])
    ensures Distinct(next)
    ensures forall x :: x in next <==> x in list || (x == role && add)
  {
  }

  /** An empty subset list for every known group. */
  method EmptyLists(d: Dag) returns (inverse: map<Role, seq<Role>>)
    requires Valid(d)
    ensures inverse.Keys == d.vertices.Keys
    ensures forall r :: r in inverse ==> inverse[r] == []
  {
    inverse := map[];
    for i := 0 to |d.roles|
      invariant forall r :: r in inverse <==> r in d.roles[..i]
      invariant forall r :: r in inverse ==> inverse[r] == []
    {
      inverse := inverse[d.roles[i] := []];
      PrefixSnoc(d.roles, i);
    }
    assert d.roles[..|d.roles|] == d.roles;
  }

  /** The subset lists `sort` builds: every known group starts with none, then each group joins the lists of its direct supersets. */
  method BuildInverse(d: Dag) returns (inverse: map<Role, seq<Role>>)
    requires Valid(d)
    ensures IsInverse(d, inverse)
    ensures inverse == Inverse(d)
  {
    inverse := EmptyLists(d);
    for i := 0 to |d.roles|
      invariant inverse.Keys == d.vertices.Keys
      invariant forall s :: s in inverse ==> inverse[s] == SubsetsIn(d, d.roles[..i], s)
    {
      var previous := inverse;
      InverseSoFarDistinct(d, previous, i);
      inverse := AddToSupersets(d, inverse, d.roles[i]);
      InverseStep(d, previous, inverse, i);
    }
    InverseComplete(d, inverse);
    InverseIsInverse(d);
  }

  /** No group is its own direct superset. */
  lemma NoSelfEdge(d: Dag, x: Role)
    requires Valid(d) && x in d.vertices
    ensures x !in d.vertices[x]
  {
    var rank :| Ranked(d, rank);
  }

  /**
   * The state of `sort`'s main loop. Every visited or pushed group has all its
   * direct supersets visited; every other group except ANONYMOUS is in
   * `waiting` (the subsets still to be examined) or has an unvisited superset.
   */
  ghost predicate Pending(d: Dag, visited: set<Role>, candidates: seq<Role>, waiting: seq<Role>) {
    && Distinct(candidates)
    && (forall x :: x in visited ==> x in d.vertices)
    && (forall x :: x in candidates ==> x in d.vertices && x !in visited)
    && (ANONYMOUS in visited || ANONYMOUS in candidates)
    && (forall x, s :: (x in visited || x in candidates) && s in d.vertices[x] ==> s in visited)
    && (forall x :: x in d.vertices && x !in visited && x !in candidates && x != ANONYMOUS ==>
          x in waiting || exists s :: s in d.vertices[x] && s !in visited)
  }

  ghost predicate SortState(d: Dag, visited: set<Role>, candidates: seq<Role>) {
    Pending(d, visited, candidates, [])
  }

  /** The state of the inner loop while the direct subsets `waiting` of the just visited `c` are examined. */
  ghost predicate Examining(d: Dag, visited: set<Role>, c: Role, candidates: seq<Role>, waiting: seq<Role>) {
    && Pending(d, visited, candidates, waiting)
    && Distinct(waiting)
    && forall y :: y in waiting ==> y in d.vertices && c in d.vertices[y] && y !in visited && y !in candidates
  }

  /** `sort` starts with nothing visited and ANONYMOUS as the only candidate. */
  lemma InitialState(d: Dag)
    requires Valid(d)
    ensures SortState(d, {}, [ANONYMOUS])
  {
    forall x | x in d.vertices && x != ANONYMOUS
      ensures exists s :: s in d.vertices[x] && s !in {}
    {
      assert d.vertices[x][0] in d.vertices[x];
    }
  }

  /** Visiting the top candidate leaves its direct subsets to be examined. */
  lemma VisitTop(d: Dag, inverse: map<Role, seq<Role>>, visited: set<Role>, rest: seq<Role>, c: Role)
    requires Valid(d) && IsInverse(d, inverse) && SortState(d, visited, rest + [c])
    ensures c in inverse
    ensures Examining(d, visited + {c}, c, rest, inverse[c])
  {
    var cs := rest + [c];
    assert c in cs;
    forall x | x in rest
      ensures x in cs && x != c
    {
      var i :| 0 <= i < |rest| && rest[i] == x;
      assert cs[i] == x && cs[|cs| - 1] == c;
    }
    assert Distinct(rest) by {
      forall i, j | 0 <= i < j < |rest|
        ensures rest[i] != rest[j]
      {
        assert cs[i] == rest[i] && cs[j] == rest[j];
      }
    }
    NoSelfEdge(d, c);
    forall x | x in d.vertices && x !in visited + {c} && x !in rest && x != ANONYMOUS
      ensures x in inverse[c] || exists s :: s in d.vertices[x] && s !in visited + {c}
    {
      assert x !in cs;
      var s :| s in d.vertices[x] && s !in visited;
      if s != c {
        assert s !in visited + {c};
      }
    }
  }

  /** All direct supersets of `x` are visited, so `x` may be visited next. */
  ghost predicate Ready(d: Dag, visited: set<Role>, x: Role) {
    x in d.vertices && forall s :: s in d.vertices[x] ==> s in visited
  }

  /** The groups of `subsets` that are ready, in order. */
  ghost function ReadyOf(d: Dag, visited: set<Role>, subsets: seq<Role>): (r: seq<Role>)
    ensures forall y :: y in r <==> y in subsets && Ready(d, visited, y)
  {
    if |subsets| == 0 then []
    else (if Ready(d, visited, subsets[0]) then [subsets[0]] else []) + ReadyOf(d, visited, subsets[1..])
  }

  lemma {:induction false} ReadyOfAppend(d: Dag, visited: set<Role>, subsets: seq<Role>, x: Role)
    ensures ReadyOf(d, visited, subsets + [x])
         == ReadyOf(d, visited, subsets) + (if Ready(d, visited, x) then [x] else [])
  {
    if |subsets| > 0 {
      assert (subsets + [x])[1..] == subsets[1..] + [x];
      ReadyOfAppend(d, visited, subsets[1..], x);
    } else {
      assert (subsets + [x])[1..] == [];
    }
  }

  lemma {:induction false} ReadyOfDistinct(d: Dag, visited: set<Role>, subsets: seq<Role>)
    requires Distinct(subsets)
    ensures Distinct(ReadyOf(d, visited, subsets))
  {
    if |subsets| > 0 {
      var tail := subsets[1..];
      assert Distinct(tail) by {
        forall i, j | 0 <= i < j < |tail|
          ensures tail[i] != tail[j]
        {
          assert tail[i] == subsets[i + 1] && tail[j] == subsets[j + 1];
        }
      }
      assert subsets[0] !in tail by {
        forall i | 0 <= i < |tail|
          ensures tail[i] != subsets[0]
        {
          assert tail[i] == subsets[i + 1];
        }
      }
      ReadyOfDistinct(d, visited, tail);
      var r := ReadyOf(d, visited, subsets);
      var rest := ReadyOf(d, visited, tail);
      if Ready(d, visited, subsets[0]) {
        assert r == [subsets[0]] + rest;
        forall i, j | 0 <= i < j < |r|
          ensures r[i] != r[j]
        {
          if i == 0 {
            assert r[j] == rest[j - 1];
          } else {
            assert r[i] == rest[i - 1] && r[j] == rest[j - 1];
          }
        }
      } else {
        assert r == rest;
      }
    }
  }

  /** Pushing the ready subsets of the visited candidate restores the loop state of `sort`. */
  lemma PushReadyKeepsState(d: Dag, visited: set<Role>, c: Role, candidates: seq<Role>, waiting: seq<Role>)
    requires Examining(d, visited, c, candidates, waiting)
    ensures SortState(d, visited, candidates + ReadyOf(d, visited, waiting))
  {
    var ready := ReadyOf(d, visited, waiting);
    var next := candidates + ready;
    ReadyOfDistinct(d, visited, waiting);
    assert Distinct(next) by {
      forall i, j | 0 <= i < j < |next|
        ensures next[i] != next[j]
      {
        if j >= |candidates| {
          assert next[j] == ready[j - |candidates|];
          if i >= |candidates| {
            assert next[i] == ready[i - |candidates|];
          } else {
            assert next[i] == candidates[i];
            assert next[j] in waiting;
          }
        } else {
          assert next[i] == candidates[i] && next[j] == candidates[j];
        }
      }
    }
    assert forall x :: x in next <==> x in candidates || x in ready;
  }

  /** Once no candidate is left, every known group has been visited. */
  lemma Finished(d: Dag, visited: set<Role>)
    requires Valid(d) && SortState(d, visited, [])
    ensures d.vertices.Keys <= visited
  {
    var rank :| Ranked(d, rank);
    forall x | x in d.vertices
      ensures x in visited
    {
      AllVisited(d, rank, visited, x);
    }
  }

  /**
   * The groups in the order the main loop of `sort` visits them from a state:
   * pop the top candidate, visit it, push its ready direct subsets. It depends
   * only on the DAG and the subset lists, never on the options.
   */
  ghost function Walk(d: Dag, inverse: map<Role, seq<Role>>, visited: set<Role>, candidates: seq<Role>): seq<Role>
    requires Valid(d) && IsInverse(d, inverse) && SortState(d, visited, candidates)
    decreases d.vertices.Keys - visited
  {
    if |candidates| == 0 then []
    else
      var c := candidates[|candidates| - 1];
      var rest := candidates[..|candidates| - 1];
      assert candidates == rest + [c];
      assert c in candidates;
      VisitTop(d, inverse, visited, rest, c);
      PushReadyKeepsState(d, visited + {c}, c, rest, inverse[c]);
      [c] + Walk(d, inverse, visited + {c}, rest + ReadyOf(d, visited + {c}, inverse[c]))
  }

  /** One step of the walk: the top candidate comes first. */
  lemma WalkStep(d: Dag, inverse: map<Role, seq<Role>>, visited: set<Role>, candidates: seq<Role>)
    requires Valid(d) && IsInverse(d, inverse) && SortState(d, visited, candidates) && |candidates| > 0
    ensures candidates[|candidates| - 1] in inverse
    ensures SortState(d, visited + {candidates[|candidates| - 1]},
      candidates[..|candidates| - 1] + ReadyOf(d, visited + {candidates[|candidates| - 1]}, inverse[candidates[|candidates| - 1]]))
    ensures Walk(d, inverse, visited, candidates)
      == [candidates[|candidates| - 1]] + Walk(d, inverse, visited + {candidates[|candidates| - 1]},
           candidates[..|candidates| - 1] + ReadyOf(d, visited + {candidates[|candidates| - 1]}, inverse[candidates[|candidates| - 1]]))
  {
    var c := candidates[|candidates| - 1];
    assert candidates == candidates[..|candidates| - 1] + [c];
    VisitTop(d, inverse, visited, candidates[..|candidates| - 1], c);
    PushReadyKeepsState(d, visited + {c}, c, candidates[..|candidates| - 1], inverse[c]);
  }

  /** The walk visits every known group that is not yet visited, and nothing else. */
  lemma {:induction false} WalkMembers(d: Dag, inverse: map<Role, seq<Role>>, visited: set<Role>, candidates: seq<Role>)
    requires Valid(d) && IsInverse(d, inverse) && SortState(d, visited, candidates)
    ensures forall x :: x in Walk(d, inverse, visited, candidates) <==> x in d.vertices && x !in visited
    decreases d.vertices.Keys - visited
  {
    if |candidates| == 0 {
      Finished(d, visited);
    } else {
      var c := candidates[|candidates| - 1];
      assert c in candidates;
      WalkStep(d, inverse, visited, candidates);
      WalkMembers(d, inverse, visited + {c}, candidates[..|candidates| - 1] + ReadyOf(d, visited + {c}, inverse[c]));
    }
  }

  /** The whole walk of `sort`, from nothing visited and ANONYMOUS as the only candidate. */
  ghost function WalkFrom(d: Dag, inverse: map<Role, seq<Role>>): seq<Role>
    requires Valid(d) && IsInverse(d, inverse)
  {
    InitialState(d);
    Walk(d, inverse, {}, [ANONYMOUS])
  }

  /** The loop state of `sort` so far: the options placed, followed by those of the rest of the walk, are those of the whole walk. */
  ghost predicate Traced(d: Dag, inverse: map<Role, seq<Role>>, options: seq<SelectOption>,
                         out: seq<SelectOption>, visited: set<Role>, candidates: seq<Role>)
    requires Valid(d) && IsInverse(d, inverse)
  {
    && SortState(d, visited, candidates)
    && Found(WalkFrom(d, inverse), options) == out + Found(Walk(d, inverse, visited, candidates), options)
  }

  /** A round of the main loop keeps the trace. */
  lemma TraceStep(d: Dag, inverse: map<Role, seq<Role>>, options: seq<SelectOption>,
                  out: seq<SelectOption>, visited: set<Role>, candidates: seq<Role>,
                  out': seq<SelectOption>, visited': set<Role>, candidates': seq<Role>)
    requires Valid(d) && IsInverse(d, inverse) && |candidates| > 0
    requires Traced(d, inverse, options, out, visited, candidates)
    requires visited' == visited + {candidates[|candidates| - 1]}
    requires out' == out + Found([candidates[|candidates| - 1]], options)
    requires candidates[|candidates| - 1] in inverse
    requires candidates' == candidates[..|candidates| - 1] + ReadyOf(d, visited', inverse[candidates[|candidates| - 1]])
    ensures Traced(d, inverse, options, out', visited', candidates')
  {
    var c := candidates[|candidates| - 1];
    WalkStep(d, inverse, visited, candidates);
    FoundStep(Found(WalkFrom(d, inverse), options), out, c, Walk(d, inverse, visited', candidates'), options);
  }

  /** Moving the option of the first role of the rest of the walk to the placed ones. */
  lemma FoundStep(whole: seq<SelectOption>, out: seq<SelectOption>, c: Role, rest: seq<Role>, options: seq<SelectOption>)
    requires whole == out + Found([c] + rest, options)
    ensures whole == (out + Found([c], options)) + Found(rest, options)
  {
    FoundAppend([c], rest, options);
  }

  /** The order in which `sort` visits the groups of `d`: every known group, starting with ANONYMOUS. */
  ghost function VisitOrder(d: Dag): (order: seq<Role>)
    requires Valid(d)
    ensures forall x :: x in order <==> x in d.vertices
  {
    InverseIsInverse(d);
    InitialState(d);
    WalkMembers(d, Inverse(d), {}, [ANONYMOUS]);
    WalkFrom(d, Inverse(d))
  }

  lemma VisitOrderIsWalk(d: Dag)
    requires Valid(d)
    ensures IsInverse(d, Inverse(d)) && VisitOrder(d) == WalkFrom(d, Inverse(d))
  {
    InverseIsInverse(d);
  }

  /** Placing the option of the top candidate keeps the placed options topologically sorted. */
  lemma PlaceCandidate(d: Dag, visited: set<Role>, cs: seq<Role>, out: seq<SelectOption>, o: SelectOption)
    requires Valid(d) && SortState(d, visited, cs) && o.value in cs
    requires TopologicallySorted(d, out)
    requires forall p :: p in out ==> p.value in visited
    ensures TopologicallySorted(d, out + [o])
  {
    var next := out + [o];
    NoSelfReach(d, o.value);
    forall i, j | 0 <= i < |next| && 0 <= j < |next| && Reaches(d, next[j].value, next[i].value)
      ensures i < j
    {
      if j < |out| {
        assert next[j] == out[j];
        if i == |out| {
          // A visited group reaches only visited groups, and the candidate is not visited.
          assert out[j] in out;
          ReachClosed(d, out[j].value, visited, o.value);
        } else {
          assert next[i] == out[i];
        }
      }
    }
  }

  /** Every known group ends up visited once nothing waits any more. */
  lemma {:induction false} AllVisited(d: Dag, rank: map<Role, nat>, visited: set<Role>, x: Role)
    requires Valid(d) && Ranked(d, rank) && SortState(d, visited, [])
    requires x in d.vertices
    ensures x in visited
    decreases rank[x]
  {
    if x !in visited {
      var s :| s in d.vertices[x] && s !in visited;
      AllVisited(d, rank, visited, s);
    }
  }

  lemma DistinctCount(s: seq<SelectOption>, o: SelectOption)
    requires DistinctValues(s)
    ensures multiset(s)[o] == if o in s then 1 else 0
  {
    if |s| > 0 {
      assert s == [s[0]] + s[1..];
      DistinctCount(s[1..], o);
    }
  }

  /** The topological order: every (transitive) superset of a placed group comes before it. */
  ghost predicate TopologicallySorted(d: Dag, out: seq<SelectOption>) {
    forall i, j :: 0 <= i < |out| && 0 <= j < |out| && Reaches(d, out[j].value, out[i].value) ==> i < j
  }

  /** In particular every direct superset comes before its subset. */
  lemma SortedDirect(d: Dag, out: seq<SelectOption>, i: int, j: int)
    requires TopologicallySorted(d, out)
    requires 0 <= i < |out| && 0 <= j < |out|
    requires out[j].value in d.vertices && out[i].value in d.vertices[out[j].value]
    ensures i < j
  {
    ReachesEdge(d, out[j].value, out[i].value);
  }

  /** Only known groups take part in a reach when every edge ends at a known group. */
  lemma ReachesKnown(d: Dag, a: Role, b: Role)
    requires EdgesClosed(d) && Reaches(d, a, b)
    ensures a in d.vertices && b in d.vertices
  {
    var p :| IsPath(d, p) && |p| >= 2 && p[0] == a && p[|p| - 1] == b;
    assert p[|p| - 2] in d.vertices;
  }
  /** The inner loop of `sort`: every direct subset whose direct supersets are all visited is pushed, in order. */
  method PushReady(d: Dag, visited: set<Role>, candidates: seq<Role>, subsets: seq<Role>)
    returns (next: seq<Role>)
    requires forall y :: y in subsets ==> y in d.vertices
    ensures next == candidates + ReadyOf(d, visited, subsets)
  {
    next := candidates;
    for k := 0 to |subsets|
      invariant next == candidates + ReadyOf(d, visited, subsets[..k])
    {
      var subset := subsets[k];
      var supersets := d.vertices[subset];
      var ready := forall s :: s in supersets ==> s in visited;
      ReadyOfAppend(d, visited, subsets[..k], subset);
      if ready {
        next := next + [subset];
      }
      PrefixSnoc(subsets, k);
    }
    assert subsets[..|subsets|] == subsets;
  }

  /** What the main loop of `sort` has placed: the options of visited groups, each role once, in topological order. */
  ghost predicate Placed(d: Dag, options: seq<SelectOption>, visited: set<Role>, out: seq<SelectOption>) {
    && (forall o :: o in out ==> o in options && o.value in visited)
    && DistinctValues(out)
    && (DistinctValues(options) ==> forall o :: o in options && o.value in visited ==> o in out)
    && TopologicallySorted(d, out)
  }

  /** Places the option of the top candidate, if there is one, before the candidate is marked visited. */
  method PlaceOption(d: Dag, options: seq<SelectOption>, out: seq<SelectOption>, visited: set<Role>, candidates: seq<Role>)
    returns (out': seq<SelectOption>)
    requires Valid(d) && |candidates| > 0
    requires SortState(d, visited, candidates) && Placed(d, options, visited, out)
    ensures Placed(d, options, visited + {candidates[|candidates| - 1]}, out')
    ensures out' == out + Found([candidates[|candidates| - 1]], options)
  {
    var candidate := candidates[|candidates| - 1];
    assert candidate in candidates;
    out' := out;
    var option := FindByValue(options, candidate);
    if option.Some? {
      PlaceCandidate(d, visited, candidates, out, option.value);
      out' := out + [option.value];
    }
  }

  /** One round of the main loop of `sort`: pop a candidate, place its option, visit it and push its ready subsets. */
  method VisitNext(d: Dag, inverse: map<Role, seq<Role>>, options: seq<SelectOption>,
                   out: seq<SelectOption>, visited: set<Role>, candidates: seq<Role>)
    returns (out': seq<SelectOption>, visited': set<Role>, candidates': seq<Role>)
    requires Valid(d) && IsInverse(d, inverse) && |candidates| > 0
    requires SortState(d, visited, candidates) && Placed(d, options, visited, out)
    ensures SortState(d, visited', candidates') && Placed(d, options, visited', out')
    ensures visited' == visited + {candidates[|candidates| - 1]}
    ensures out' == out + Found([candidates[|candidates| - 1]], options)
    ensures candidates' == candidates[..|candidates| - 1] + ReadyOf(d, visited', inverse[candidates[|candidates| - 1]])
  {
    var candidate := candidates[|candidates| - 1];
    var rest := candidates[..|candidates| - 1];
    assert candidates == rest + [candidate];
    out' := PlaceOption(d, options, out, visited, candidates);
    VisitTop(d, inverse, visited, rest, candidate);
    visited' := visited + {candidate};
    PushReadyKeepsState(d, visited', candidate, rest, inverse[candidate]);
    candidates' := PushReady(d, visited', rest, inverse[candidate]);
  }

  /**
   * The main loop of `sort`: starting from ANONYMOUS, a group becomes a
   * candidate once all its direct supersets are visited, and candidates are
   * taken from the top of a stack. The option of each visited group is placed.
   */
  method VisitAll(d: Dag, inverse: map<Role, seq<Role>>, options: seq<SelectOption>)
    returns (out: seq<SelectOption>, visited: set<Role>)
    requires Valid(d) && IsInverse(d, inverse)
    ensures visited == d.vertices.Keys
    ensures Placed(d, options, visited, out)
    ensures out == Found(WalkFrom(d, inverse), options)
  {
    visited := {};
    out := [];
    var candidates := [ANONYMOUS];
    InitialState(d);
    while |candidates| > 0
      invariant Traced(d, inverse, options, out, visited, candidates) && Placed(d, options, visited, out)
      decreases d.vertices.Keys - visited
    {
      ghost var (out0, visited0, candidates0) := (out, visited, candidates);
      out, visited, candidates := VisitNext(d, inverse, options, out, visited, candidates);
      TraceStep(d, inverse, options, out0, visited0, candidates0, out, visited, candidates);
    }
    Finished(d, visited);
  }

  /** Appending the unknown options after the placed ones keeps the order topological. */
  lemma SortedAppendUnknown(d: Dag, placed: seq<SelectOption>, options: seq<SelectOption>)
    requires EdgesClosed(d) && TopologicallySorted(d, placed)
    ensures TopologicallySorted(d, placed + Unknown(d, options))
  {
    var unknown := Unknown(d, options);
    var out := placed + unknown;
    UnknownMembers(d, options);
    forall k | |placed| <= k < |out|
      ensures out[k].value !in d.vertices
    {
      assert out[k] == unknown[k - |placed|];
    }
    forall i, j | 0 <= i < |out| && 0 <= j < |out| && Reaches(d, out[j].value, out[i].value)
      ensures i < j
    {
      ReachesKnown(d, out[j].value, out[i].value);
      assert placed[i] == out[i] && placed[j] == out[j];
    }
  }

  /** With distinct roles, the placed options of every known role followed by the unknown ones are a permutation of the input. */
  lemma PermutationAppendUnknown(d: Dag, placed: seq<SelectOption>, options: seq<SelectOption>)
    requires DistinctValues(options) && DistinctValues(placed)
    requires forall o :: o in placed <==> o in options && o.value in d.vertices
    ensures multiset(placed + Unknown(d, options)) == multiset(options)
  {
    var unknown := Unknown(d, options);
    var out := placed + unknown;
    UnknownMembers(d, options);
    UnknownDistinct(d, options);
    assert DistinctValues(out) by {
      forall i, j | 0 <= i < j < |out|
        ensures out[i].value != out[j].value
      {
        if i < |placed| && j >= |placed| {
          assert out[j] in unknown;
          assert out[i] in placed;
        } else if i >= |placed| {
          assert out[i] == unknown[i - |placed|] && out[j] == unknown[j - |placed|];
        } else {
          assert out[i] == placed[i] && out[j] == placed[j];
        }
      }
    }
    forall o
      ensures multiset(out)[o] == multiset(options)[o]
    {
      DistinctCount(out, o);
      DistinctCount(options, o);
      assert o in out <==> o in placed || o in unknown;
    }
  }

  /** The last loop of `sort`: the options whose role was not visited follow in input order. */
  method AppendUnknown(d: Dag, visited: set<Role>, options: seq<SelectOption>, placed: seq<SelectOption>)
    returns (out: seq<SelectOption>)
    requires visited == d.vertices.Keys
    ensures out == placed + Unknown(d, options)
  {
    out := placed;
    for i := 0 to |options|
      invariant out == placed + Unknown(d, options[..i])
    {
      if options[i].value !in visited {
        out := out + [options[i]];
      }
      PrefixSnoc(options, i);
      UnknownSnoc(d, options[..i], options[i]);
    }
    assert options[..|options|] == options;
  }

  /**
   * Topologically sorts the options so that large groups come first, then
   * appends the options with a role that was never visited (unknown roles) in
   * their input order.
   */
  method Sort(d: Dag, options: seq<SelectOption>) returns (out: seq<SelectOption>)
    requires Valid(d)
    ensures TopologicallySorted(d, out)
    ensures |Unknown(d, options)| <= |out|
    ensures out[|out| - |Unknown(d, options)|..] == Unknown(d, options)
    ensures forall i :: 0 <= i < |out| - |Unknown(d, options)| ==> out[i].value in d.vertices
    ensures forall o :: o in out ==> o in options
    ensures DistinctValues(options) ==> multiset(out) == multiset(options)
    ensures out == SortedOptions(d, options)
  {
    var inverse := BuildInverse(d);
    var visited;
    out, visited := VisitAll(d, inverse, options);
    VisitOrderIsWalk(d);
    ghost var placed := out;
    out := AppendUnknown(d, visited, options, out);
    AppendUnknownFacts(d, options, placed);
  }

  /** The facts `Sort` promises about the placed options followed by the unknown ones. */
  lemma AppendUnknownFacts(d: Dag, options: seq<SelectOption>, placed: seq<SelectOption>)
    requires Valid(d) && Placed(d, options, d.vertices.Keys, placed)
    ensures TopologicallySorted(d, placed + Unknown(d, options))
    ensures |placed + Unknown(d, options)| - |Unknown(d, options)| == |placed|
    ensures (placed + Unknown(d, options))[|placed|..] == Unknown(d, options)
    ensures forall i :: 0 <= i < |placed| ==> (placed + Unknown(d, options))[i].value in d.vertices
    ensures forall o :: o in placed + Unknown(d, options) ==> o in options
    ensures DistinctValues(options) ==> multiset(placed + Unknown(d, options)) == multiset(options)
  {
    var out := placed + Unknown(d, options);
    UnknownMembers(d, options);
    SortedAppendUnknown(d, placed, options);
    if DistinctValues(options) {
      PermutationAppendUnknown(d, placed, options);
    }
    assert forall i :: 0 <= i < |placed| ==> out[i] == placed[i];
  }


  /**
   * What `sort` returns: the option of each group in visit order, then the
   * options with an unknown role in input order.
   */
  ghost function SortedOptions(d: Dag, options: seq<SelectOption>): seq<SelectOption>
    requires Valid(d)
  {
    Found(VisitOrder(d), options) + Unknown(d, options)
  }

  /** Options of known groups only leave nothing unknown. */
  lemma {:induction false} UnknownOfKnown(d: Dag, known: seq<SelectOption>)
    requires forall o :: o in known ==> o.value in d.vertices
    ensures Unknown(d, known) == []
  {
    if |known| > 0 {
      var init := known[..|known| - 1];
      assert known[|known| - 1] in known;
      assert forall o :: o in init ==> o in known;
      UnknownOfKnown(d, init);
    }
  }

  /** Appending options of unknown groups after options of known ones: exactly the appended ones are unknown. */
  lemma {:induction false} UnknownAfterKnown(d: Dag, known: seq<SelectOption>, unknown: seq<SelectOption>)
    requires forall o :: o in known ==> o.value in d.vertices
    requires forall o :: o in unknown ==> o.value !in d.vertices
    ensures Unknown(d, known + unknown) == unknown
  {
    if |unknown| == 0 {
      assert known + unknown == known;
      UnknownOfKnown(d, known);
    } else {
      var init := unknown[..|unknown| - 1];
      var last := unknown[|unknown| - 1];
      assert unknown == init + [last];
      assert (known + unknown)[..|known + unknown| - 1] == known + init;
      assert last in unknown;
      UnknownAfterKnown(d, known, init);
    }
  }

  /** With distinct values, sorting keeps the options: every lookup by role finds the same option. */
  lemma SortedSameLookups(d: Dag, options: seq<SelectOption>)
    requires Valid(d) && DistinctValues(options)
    ensures forall v :: FindByValue(SortedOptions(d, options), v) == FindByValue(options, v)
  {
    var sorted := SortedOptions(d, options);
    FoundMembers(VisitOrder(d), options);
    UnknownMembers(d, options);
    assert forall o :: o in sorted <==> o in options;
    forall v
      ensures FindByValue(sorted, v) == FindByValue(options, v)
    {
      var a := FindByValue(sorted, v);
      if a.Some? {
        assert a.value in options;
      }
    }
  }

  /** `sort` is idempotent for options with distinct roles: sorting a sorted list changes nothing. */
  lemma SortIdempotent(d: Dag, options: seq<SelectOption>)
    requires Valid(d) && DistinctValues(options)
    ensures SortedOptions(d, SortedOptions(d, options)) == SortedOptions(d, options)
  {
    var order := VisitOrder(d);
    var known := Found(order, options);
    var unknown := Unknown(d, options);
    SortedSameLookups(d, options);
    FoundSame(order, known + unknown, options);
    UnknownMembers(d, options);
    UnknownAfterKnown(d, known, unknown);
  }
}
