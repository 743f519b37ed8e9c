/** The menu tree assembled from the flat rows of the role's menu query.

    The service walks the rows once, records each new node under its menu id in
    a map (a later row with the same id takes over the entry), makes a row whose
    `header` is 0 a root, and pushes any other row into the `child` list of the
    node the map holds for its `header`, or drops it when there is none. The map
    entry is written before the parent is looked up, so a row whose `header` is
    its own id lands in its own `child` list, where no root can reach it.

    Node objects are shared: a node is pushed into its parent after the parent
    was already placed, and the result shows every `child` list in its final
    state. The model keeps one arena slot per row (slot = row index = object
    identity), records roots and child lists as slot indices, and renders the
    nested result from the final lists. */
module MenuTree {
  import opened Results

  /** The role's capability flags for one menu, as the menu query selects them. */
  datatype Permission = Permission(mCreated: int, mUpdated: int, mDeleted: int)

  /** One row of the menu query: the menu's columns and the role's flags for it. */
  datatype MenuRow = MenuRow(
    id: int,
    name: string,
    path: string,
    icon: string,
    level: int,
    header: int,
    permission: Permission)

  /** One node of the response. */
  datatype MenuNode = MenuNode(
    id: int,
    name: string,
    path: string,
    icon: string,
    level: int,
    permission: Permission,
    child: seq<MenuNode>)

  /** Where a row's node ends up: a root, the `child` list of an arena slot, or nowhere. */
  datatype Placement = Root | Under(parent: nat) | Dropped

  predicate Increasing(ks: seq<nat>) {
    forall a, b :: 0 <= a < b < |ks| ==> ks[a] < ks[b]
  }

  /** The slot the id map holds for `id` after the first `n` rows: the latest of them with that id. */
  function LatestWithId(rows: seq<MenuRow>, n: nat, id: int): (r: Option<nat>)
    requires n <= |rows|
    ensures r.Some? ==> r.value < n && rows[r.value].id == id
    ensures r.Some? ==> forall k :: r.value < k < n ==> rows[k].id != id
    ensures r.None? ==> forall k :: 0 <= k < n ==> rows[k].id != id
  {
    if n == 0 then None
    else if rows[n - 1].id == id then Some(n - 1)
    else LatestWithId(rows, n - 1, id)
  }

  /** The placement of row `i`: the map already holds row `i` when its parent is looked up. */
  function PlacementOf(rows: seq<MenuRow>, i: nat): (p: Placement)
    requires i < |rows|
    ensures p.Under? ==> p.parent <= i
  {
    if rows[i].header == 0 then Root
    else match LatestWithId(rows, i + 1, rows[i].header)
      case None => Dropped
      case Some(j) => Under(j)
  }

  /** The root slots among the first `n` rows, in arrival order. */
  function RootsUpTo(rows: seq<MenuRow>, n: nat): (r: seq<nat>)
    requires n <= |rows|
    ensures forall i :: 0 <= i < |r| ==> r[i] < n
  {
    if n == 0 then [] else RootsUpTo(rows, n - 1) + (if rows[n - 1].header == 0 then [n - 1] else [])
  }

  /** The slots pushed into the `child` list of slot `j` while handling the first `n` rows, in arrival order. */
  function ChildrenUpTo(rows: seq<MenuRow>, n: nat, j: nat): (r: seq<nat>)
    requires n <= |rows|
    ensures forall k :: k in r ==> j <= k < n
    ensures n <= j ==> r == []
  {
    if n == 0 then [] else ChildrenUpTo(rows, n - 1, j) + (if PlacementOf(rows, n - 1) == Under(j) then [n - 1] else [])
  }

  /** Appending a slot above every slot of an increasing list keeps it increasing. */
  lemma AppendIncreasing(prev: seq<nat>, n: nat, extra: seq<nat>)
    requires Increasing(prev) && forall a :: 0 <= a < |prev| ==> prev[a] < n
    requires extra == [] || extra == [n]
    ensures Increasing(prev + extra)
    ensures forall k :: k in prev + extra <==> k in prev || k in extra
  {
  }

  /** The roots are exactly the rows with `header` 0, in strictly increasing arrival order. */
  lemma {:induction false} RootsUpToFacts(rows: seq<MenuRow>, n: nat)
    requires n <= |rows|
    ensures forall k :: k in RootsUpTo(rows, n) <==> 0 <= k < n && rows[k].header == 0
    ensures Increasing(RootsUpTo(rows, n))
  {
    if n > 0 {
      RootsUpToFacts(rows, n - 1);
      var prev := RootsUpTo(rows, n - 1);
      var extra := if rows[n - 1].header == 0 then [n - 1] else [];
      assert RootsUpTo(rows, n) == prev + extra;
      AppendIncreasing(prev, n - 1, extra);
    }
  }

  /** A slot's children are exactly the rows placed under it, in strictly increasing arrival order. */
  lemma {:induction false} ChildrenUpToFacts(rows: seq<MenuRow>, n: nat, j: nat)
    requires n <= |rows|
    ensures forall k :: k in ChildrenUpTo(rows, n, j) <==> 0 <= k < n && PlacementOf(rows, k) == Under(j)
    ensures Increasing(ChildrenUpTo(rows, n, j))
  {
    if n > 0 {
      ChildrenUpToFacts(rows, n - 1, j);
      var prev := ChildrenUpTo(rows, n - 1, j);
      var extra := if PlacementOf(rows, n - 1) == Under(j) then [n - 1] else [];
      assert ChildrenUpTo(rows, n, j) == prev + extra;
      assert forall a :: 0 <= a < |prev| ==> prev[a] in prev;
      AppendIncreasing(prev, n - 1, extra);
    }
  }

  /** The id map agrees with the latest row per id among the first `n` rows. */
  ghost predicate MapMatches(rows: seq<MenuRow>, n: nat, m: map<int, nat>)
    requires n <= |rows|
  {
    forall id :: LatestWithId(rows, n, id) == if id in m then Some(m[id]) else None
  }

  /** The child lists agree with the definition after the first `n` rows. */
  ghost predicate ChildMatches(rows: seq<MenuRow>, n: nat, child: seq<seq<nat>>)
    requires n <= |rows|
  {
    |child| == n && forall j :: 0 <= j < n ==> child[j] == ChildrenUpTo(rows, n, j)
  }

  /** Pushes slot `i` into the child list its placement names. */
  function Attach(child: seq<seq<nat>>, p: Placement, i: nat): (r: seq<seq<nat>>)
    requires p.Under? ==> p.parent < |child|
    ensures |r| == |child|
  {
    match p
    case Under(j) => child[j := child[j] + [i]]
    case _ => child
  }

  lemma MapStep(rows: seq<MenuRow>, i: nat, m: map<int, nat>)
    requires i < |rows| && MapMatches(rows, i, m)
    ensures MapMatches(rows, i + 1, m[rows[i].id := i])
  {
  }

  lemma PlacementStep(rows: seq<MenuRow>, i: nat, m: map<int, nat>)
    requires i < |rows| && MapMatches(rows, i + 1, m)
    ensures PlacementOf(rows, i) == if rows[i].header == 0 then Root
      else if rows[i].header in m then Under(m[rows[i].header]) else Dropped
  {
    assert LatestWithId(rows, i + 1, rows[i].header)
      == if rows[i].header in m then Some(m[rows[i].header]) else None;
  }

  lemma RootsStep(rows: seq<MenuRow>, i: nat)
    requires i < |rows|
    ensures RootsUpTo(rows, i + 1) == RootsUpTo(rows, i) + (if rows[i].header == 0 then [i] else [])
  {
  }

  lemma ChildStep(rows: seq<MenuRow>, i: nat, prev: seq<seq<nat>>)
    requires i < |rows| && ChildMatches(rows, i, prev)
    ensures ChildMatches(rows, i + 1, Attach(prev + [[]], PlacementOf(rows, i), i))
  {
    var next := Attach(prev + [[]], PlacementOf(rows, i), i);
    forall j | 0 <= j < i + 1
      ensures next[j] == ChildrenUpTo(rows, i + 1, j)
    {
      assert ChildrenUpTo(rows, i + 1, j)
        == ChildrenUpTo(rows, i, j) + (if PlacementOf(rows, i) == Under(j) then [i] else []);
    }
  }

  /** Final roots and child lists of the arena, one child list per row. */
  datatype Arena = Arena(roots: seq<nat>, child: seq<seq<nat>>)

  /** The arena the single pass leaves behind, as a definition over the rows. */
  function SpecArena(rows: seq<MenuRow>): Arena
  {
    Arena(RootsUpTo(rows, |rows|), seq(|rows|, j requires 0 <= j < |rows| => ChildrenUpTo(rows, |rows|, j)))
  }

  /** The single pass of the service over the rows, with the id map as a Dafny map. */
  method BuildArena(rows: seq<MenuRow>) returns (a: Arena)
    ensures |a.child| == |rows|
    ensures a.roots == RootsUpTo(rows, |rows|)
    ensures forall j :: 0 <= j < |rows| ==> a.child[j] == ChildrenUpTo(rows, |rows|, j)
  {
    var responseMap: map<int, nat> := map[];
    var roots: seq<nat> := [];
    var child: seq<seq<nat>> := [];
    var i := 0;
    while i < |rows|
      invariant 0 <= i <= |rows|
      invariant MapMatches(rows, i, responseMap)
      invariant roots == RootsUpTo(rows, i)
      invariant ChildMatches(rows, i, child)
    {
      responseMap, roots, child := PlaceRow(rows, i, responseMap, roots, child);
      i := i + 1;
    }
    a := Arena(roots, child);
  }

  /** One iteration of the pass: record row `i` in the id map, then make it a root or
      push it into the child list of the slot the map holds for its `header`. */
  method PlaceRow(rows: seq<MenuRow>, i: nat, responseMap: map<int, nat>, roots: seq<nat>, child: seq<seq<nat>>)
    returns (responseMap': map<int, nat>, roots': seq<nat>, child': seq<seq<nat>>)
    requires i < |rows| && MapMatches(rows, i, responseMap)
    requires roots == RootsUpTo(rows, i) && ChildMatches(rows, i, child)
    ensures MapMatches(rows, i + 1, responseMap')
    ensures roots' == RootsUpTo(rows, i + 1) && ChildMatches(rows, i + 1, child')
  {
    var row := rows[i];
    MapStep(rows, i, responseMap);
    responseMap' := responseMap[row.id := i];
    PlacementStep(rows, i, responseMap');
    ChildStep(rows, i, child);
    RootsStep(rows, i);
    roots' := roots;
    child' := child + [[]];
    if row.header == 0 {
      roots' := roots + [i];
    } else if row.header in responseMap' {
      var parent := responseMap'[row.header];
      child' := child'[parent := child'[parent] + [i]];
    }
  }

  /** Every child list names later-or-same slots of existing rows. */
  predicate WellShaped(rows: seq<MenuRow>, child: seq<seq<nat>>) {
    && |child| == |rows|
    && forall j, k :: 0 <= j < |child| && k in child[j] ==> j <= k < |rows|
  }

  /** A child list without the slot itself: a self-attached node is unreachable from any root. */
  function Without(ks: seq<nat>, j: nat): (r: seq<nat>)
    ensures forall k :: k in r <==> k in ks && k != j
    ensures |r| <= |ks|
  {
    if ks == [] then []
    else (if ks[0] == j then [] else [ks[0]]) + Without(ks[1..], j)
  }

  /** The node of slot `j` with its final child list, rendered recursively. */
  function RenderNode(rows: seq<MenuRow>, child: seq<seq<nat>>, j: nat): (n: MenuNode)
    requires WellShaped(rows, child) && j < |rows|
    ensures n.id == rows[j].id && n.name == rows[j].name && n.path == rows[j].path
    ensures n.icon == rows[j].icon && n.level == rows[j].level && n.permission == rows[j].permission
    decreases |rows| - j, 1
  {
    var r := rows[j];
    var ks := Without(child[j], j);
    assert forall i :: 0 <= i < |ks| ==> ks[i] in ks;
    MenuNode(r.id, r.name, r.path, r.icon, r.level, r.permission, RenderList(rows, child, ks, j))
  }

  function RenderList(rows: seq<MenuRow>, child: seq<seq<nat>>, ks: seq<nat>, bound: int): (ns: seq<MenuNode>)
    requires WellShaped(rows, child)
    requires forall i :: 0 <= i < |ks| ==> bound < ks[i] < |rows|
    ensures |ns| == |ks|
    ensures forall i :: 0 <= i < |ks| ==> ns[i] == RenderNode(rows, child, ks[i])
    decreases |rows| - bound, 0, |ks|
  {
    if ks == [] then []
    else [RenderNode(rows, child, ks[0])] + RenderList(rows, child, ks[1..], bound)
  }

  lemma SpecArenaWellShaped(rows: seq<MenuRow>)
    ensures WellShaped(rows, SpecArena(rows).child)
  {
  }

  /** The response the menu service returns for non-empty rows, by definition. */
  function Forest(rows: seq<MenuRow>): seq<MenuNode>
  {
    SpecArenaWellShaped(rows);
    var a := SpecArena(rows);
    assert forall i :: 0 <= i < |a.roots| ==> a.roots[i] in a.roots;
    RenderList(rows, a.child, a.roots, -1)
  }

  /** The single pass renders exactly the forest defined over the rows. */
  method BuildMenu(rows: seq<MenuRow>) returns (forest: seq<MenuNode>)
    ensures forest == Forest(rows)
  {
    var a := BuildArena(rows);
    assert a == SpecArena(rows);
    SpecArenaWellShaped(rows);
    assert forall i :: 0 <= i < |a.roots| ==> a.roots[i] in a.roots;
    forest := RenderList(rows, a.child, a.roots, -1);
  }

  // ---------------------------------------------------------------------------
  // Properties of the assembled tree.

  /** The roots are exactly the rows with `header` 0, in arrival order, each copying its row. */
  lemma RootsAreHeaderZeroRows(rows: seq<MenuRow>)
    ensures var roots := RootsUpTo(rows, |rows|);
      && |Forest(rows)| == |roots|
      && Increasing(roots)
      && (forall k :: 0 <= k < |rows| ==> (k in roots <==> rows[k].header == 0))
      && (forall i :: 0 <= i < |roots| ==>
            var n, r := Forest(rows)[i], rows[roots[i]];
            && n.id == r.id && n.name == r.name && n.path == r.path && n.icon == r.icon
            && n.level == r.level && n.permission == r.permission
            && |n.child| == |Without(SpecArena(rows).child[roots[i]], roots[i])|)
  {
    RootsUpToFacts(rows, |rows|);
  }

  /** Row `k` lands in the child list of slot `j` exactly when its `header` is not 0
      and `j` is the latest row up to and including `k` whose id is that `header`. */
  lemma ChildAttachesToLatestMatchingRow(rows: seq<MenuRow>, j: nat, k: nat)
    requires j < |rows| && k < |rows|
    ensures k in SpecArena(rows).child[j] <==>
      && rows[k].header != 0
      && j <= k
      && rows[j].id == rows[k].header
      && forall m :: j < m <= k ==> rows[m].id != rows[k].header
  {
    ChildrenUpToFacts(rows, |rows|, j);
    if rows[k].header != 0 && j <= k && rows[j].id == rows[k].header
      && forall m :: j < m <= k ==> rows[m].id != rows[k].header
    {
      var found := LatestWithId(rows, k + 1, rows[k].header);
      assert found.Some?;
      assert found.value == j;
    }
  }

  /** A row whose `header` names no row up to itself is in no root list and no child list,
      so it appears nowhere in the response; no error is raised. */
  lemma UnmatchedRowIsDropped(rows: seq<MenuRow>, k: nat)
    requires k < |rows| && rows[k].header != 0
    requires forall m :: 0 <= m <= k ==> rows[m].id != rows[k].header
    ensures k !in SpecArena(rows).roots
    ensures forall j :: 0 <= j < |rows| ==> k !in SpecArena(rows).child[j]
  {
    assert PlacementOf(rows, k) == Dropped;
    RootsUpToFacts(rows, |rows|);
    forall j | 0 <= j < |rows|
      ensures k !in SpecArena(rows).child[j]
    {
      ChildrenUpToFacts(rows, |rows|, j);
    }
  }

  /** A row whose `header` is its own id (and names no later-arriving row before it) is
      pushed into its own `child` list and nowhere else, so no root reaches it and the
      cycle it forms never reaches the response. */
  lemma SelfAttachedRowIsUnreachable(rows: seq<MenuRow>, k: nat)
    requires k < |rows| && rows[k].header != 0 && rows[k].header == rows[k].id
    ensures k !in SpecArena(rows).roots
    ensures k in SpecArena(rows).child[k]
    ensures forall j :: 0 <= j < |rows| && j != k ==> k !in SpecArena(rows).child[j]
  {
    assert LatestWithId(rows, k + 1, rows[k].header) == Some(k);
    assert PlacementOf(rows, k) == Under(k);
    RootsUpToFacts(rows, |rows|);
    ChildrenUpToFacts(rows, |rows|, k);
    forall j | 0 <= j < |rows| && j != k
      ensures k !in SpecArena(rows).child[j]
    {
      ChildrenUpToFacts(rows, |rows|, j);
    }
  }

  /** A parent that arrives after its child is too late: the child is dropped. */
  lemma ChildBeforeParentIsDropped(p: Permission)
    ensures Forest([MenuRow(2, "Ecommerce", "/e", "E", 2, 1, p), MenuRow(1, "Dashboard", "/d", "D", 1, 0, p)])
         == [MenuNode(1, "Dashboard", "/d", "D", 1, p, [])]
  {
    var rows := [MenuRow(2, "Ecommerce", "/e", "E", 2, 1, p), MenuRow(1, "Dashboard", "/d", "D", 1, 0, p)];
    assert LatestWithId(rows, 1, 1) == None;
    assert PlacementOf(rows, 0) == Dropped;
    assert RootsUpTo(rows, 1) == [];
    assert RootsUpTo(rows, 2) == [1];
    assert ChildrenUpTo(rows, 1, 1) == [];
    assert ChildrenUpTo(rows, 2, 1) == [];
  }

  /** A root followed by its child gives one root holding that child. */
  lemma RootWithOneChild(p: Permission, q: Permission)
    ensures Forest([MenuRow(1, "Dashboard", "/dashboard", "Dashboard", 1, 0, p),
                    MenuRow(2, "Ecommerce", "/dashboard/e-commerce", "Ecommerce", 2, 1, q)])
         == [MenuNode(1, "Dashboard", "/dashboard", "Dashboard", 1, p,
               [MenuNode(2, "Ecommerce", "/dashboard/e-commerce", "Ecommerce", 2, q, [])])]
  {
    var rows := [MenuRow(1, "Dashboard", "/dashboard", "Dashboard", 1, 0, p),
                 MenuRow(2, "Ecommerce", "/dashboard/e-commerce", "Ecommerce", 2, 1, q)];
    assert LatestWithId(rows, 1, 1) == Some(0);
    assert LatestWithId(rows, 2, 1) == Some(0);
    assert PlacementOf(rows, 1) == Under(0);
    assert RootsUpTo(rows, 1) == [0];
    assert RootsUpTo(rows, 2) == [0];
    assert ChildrenUpTo(rows, 1, 0) == [];
    assert ChildrenUpTo(rows, 2, 0) == [1];
    assert ChildrenUpTo(rows, 2, 1) == [];
    var a := SpecArena(rows);
    SpecArenaWellShaped(rows);
    assert a.child[0] == [1] && a.child[1] == [];
    assert Without([1], 0) == [1];
    var leaf := RenderNode(rows, a.child, 1);
    assert leaf == MenuNode(2, "Ecommerce", "/dashboard/e-commerce", "Ecommerce", 2, q, []);
    assert RenderNode(rows, a.child, 0).child == [leaf];
  }
}
