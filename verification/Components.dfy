/** The conflict graph and its breadth-first decomposition into connected components. */
module Components {
  import opened Basics

  type Graph = map<RobotId, set<RobotId>>

  type Edge = (RobotId, RobotId)

  predicate Symmetric(g: Graph) {
    forall a, b | a in g && b in g[a] :: b in g && a in g[b]
  }

  /** Every neighbour is itself a robot of the graph. */
  predicate Known(g: Graph) {
    forall a | a in g :: g[a] <= g.Keys
  }

  // ---------------------------------------------------------------- walks

  predicate IsWalk(g: Graph, w: seq<RobotId>) {
    |w| > 0 && forall i | 0 <= i < |w| - 1 :: w[i] in g && w[i + 1] in g[w[i]]
  }

  ghost predicate Connected(g: Graph, a: RobotId, b: RobotId) {
    exists w :: IsWalk(g, w) && w[0] == a && w[|w| - 1] == b
  }

  predicate ClosedSet(g: Graph, s: set<RobotId>) {
    forall a | a in s :: a in g && g[a] <= s
  }

  lemma ConnectedToItself(g: Graph, a: RobotId)
    ensures Connected(g, a, a)
  {
    assert IsWalk(g, [a]);
  }

  lemma ExtendWalk(g: Graph, a: RobotId, b: RobotId, c: RobotId)
    requires Connected(g, a, b) && b in g && c in g[b]
    ensures Connected(g, a, c)
  {
    var w :| IsWalk(g, w) && w[0] == a && w[|w| - 1] == b;
    assert IsWalk(g, w + [c]);
  }

  lemma {:induction false} WalkStaysInside(g: Graph, s: set<RobotId>, w: seq<RobotId>, i: nat)
    requires ClosedSet(g, s) && IsWalk(g, w) && w[0] in s && i < |w|
    ensures w[i] in s
  {
    if i > 0 {
      WalkStaysInside(g, s, w, i - 1);
    }
  }

  lemma {:induction false} ReverseWalk(g: Graph, w: seq<RobotId>, i: nat, c: RobotId)
    requires Symmetric(g) && IsWalk(g, w) && i < |w|
    requires Connected(g, c, w[i])
    ensures Connected(g, c, w[0])
  {
    if i > 0 {
      ExtendWalk(g, c, w[i], w[i - 1]);
      ReverseWalk(g, w, i - 1, c);
    }
  }

  lemma {:induction false} JoinWalks(g: Graph, a: RobotId, w: seq<RobotId>, i: nat)
    requires IsWalk(g, w) && i < |w| && Connected(g, a, w[0])
    ensures Connected(g, a, w[i])
  {
    if i > 0 {
      JoinWalks(g, a, w, i - 1);
      ExtendWalk(g, a, w[i - 1], w[i]);
    }
  }

  /** In a symmetric graph, two robots connected to a common root are connected to each other. */
  lemma ConnectedThroughRoot(g: Graph, root: RobotId, a: RobotId, b: RobotId)
    requires Symmetric(g) && Connected(g, root, a) && Connected(g, root, b)
    ensures Connected(g, a, b)
  {
    var v :| IsWalk(g, v) && v[0] == root && v[|v| - 1] == a;
    var w :| IsWalk(g, w) && w[0] == root && w[|w| - 1] == b;
    ConnectedToItself(g, a);
    ReverseWalk(g, v, |v| - 1, a);
    JoinWalks(g, a, w, |w| - 1);
  }

  // ---------------------------------------------------------------- partitions

  predicate InSome(parts: seq<seq<RobotId>>, r: RobotId) {
    exists k | 0 <= k < |parts| :: r in parts[k]
  }

  predicate DisjointParts(parts: seq<seq<RobotId>>) {
    forall k, l, r | 0 <= k < l < |parts| && r in parts[k] :: r !in parts[l]
  }

  predicate SortedParts(parts: seq<seq<RobotId>>) {
    && (forall k | 0 <= k < |parts| :: parts[k] != [] && StrictlyAscending(parts[k]))
    && (forall k, l | 0 <= k < l < |parts| && parts[k] != [] && parts[l] != [] :: parts[k][0] < parts[l][0])
  }

  /** Sorted parts that split the robots, ordered by their smallest member. */
  ghost predicate IsPartition(g: Graph, parts: seq<seq<RobotId>>) {
    && SortedParts(parts)
    && DisjointParts(parts)
    && forall r :: r in g <==> InSome(parts, r)
  }

  /** Two robots share a part exactly when a walk along edges joins them. */
  ghost predicate PartsAreConnected(g: Graph, parts: seq<seq<RobotId>>) {
    forall k, a, b | 0 <= k < |parts| && a in parts[k] :: b in parts[k] <==> Connected(g, a, b)
  }

  /** What is known about one finished part: closed under edges, and reachable from its root. */
  ghost predicate FinishedPart(g: Graph, part: seq<RobotId>) {
    && part != []
    && ClosedSet(g, Elems(part))
    && forall a | a in part :: Connected(g, part[0], a)
  }

  lemma FinishedPartIsComponent(g: Graph, part: seq<RobotId>, a: RobotId, b: RobotId)
    requires Symmetric(g) && FinishedPart(g, part) && a in part
    ensures b in part <==> Connected(g, a, b)
  {
    if b in part {
      ConnectedThroughRoot(g, part[0], a, b);
    } else if Connected(g, a, b) {
      var w :| IsWalk(g, w) && w[0] == a && w[|w| - 1] == b;
      WalkStaysInside(g, Elems(part), w, |w| - 1);
    }
  }

  /** Breadth-first search in progress: `seen` is made up of the finished `visited` robots, the
      expanded `component` and the `queue` of robots still to expand. */
  ghost predicate Searching(
    g: Graph, root: RobotId, visited: set<RobotId>, seen: set<RobotId>,
    component: seq<RobotId>, queue: seq<RobotId>
  ) {
    && root in seen && seen <= g.Keys
    && (forall a :: a in seen <==> a in visited || a in component || a in queue)
    && (forall a | a in component || a in queue :: a !in visited && Connected(g, root, a))
    && (forall a | a in component :: a !in queue)
    && Distinct(queue)
  }

  lemma QueueNeighbour(
    g: Graph, root: RobotId, visited: set<RobotId>, seen: set<RobotId>, component: seq<RobotId>, queue: seq<RobotId>,
    robot: RobotId, neighbour: RobotId
  )
    requires Searching(g, root, visited, seen, component, queue) && robot in component
    requires robot in g && neighbour in g[robot] && neighbour in g && neighbour !in seen
    ensures Searching(g, root, visited, seen + {neighbour}, component, queue + [neighbour])
  {
    assert Connected(g, root, robot);
    ExtendWalk(g, root, robot, neighbour);
    hide Connected;
  }

  lemma ExpandedIsKnown(
    g: Graph, root: RobotId, visited: set<RobotId>, seen: set<RobotId>, component: seq<RobotId>, queue: seq<RobotId>,
    robot: RobotId
  )
    requires Searching(g, root, visited, seen, component, queue) && robot in component
    ensures robot in g
  {
  }

  /** Queue the neighbours of `robot` that have not been seen. */
  method Expand(
    g: Graph, robot: RobotId, seen: set<RobotId>, queue: seq<RobotId>,
    ghost root: RobotId, ghost visited: set<RobotId>, ghost component: seq<RobotId>
  )
    returns (found: Option<(set<RobotId>, seq<RobotId>)>)
    requires Searching(g, root, visited, seen, component, queue) && robot in component
    ensures found.None? ==> !Known(g)
    ensures found.Some? ==> Searching(g, root, visited, found.value.0, component, found.value.1)
    ensures found.Some? ==> seen + g[robot] <= found.value.0
  {
    hide Searching, Connected, Ascending;
    ExpandedIsKnown(g, root, visited, seen, component, queue, robot);
    var newSeen, newQueue := seen, queue;
    var neighbours := Ascending(g[robot]);
    for i := 0 to |neighbours|
      invariant Searching(g, root, visited, newSeen, component, newQueue)
      invariant seen <= newSeen && forall j | 0 <= j < i :: neighbours[j] in newSeen
    {
      var neighbour := neighbours[i];
      if neighbour !in g {
        return None;
      }
      assert neighbour in Elems(neighbours);
      if neighbour !in newSeen {
        QueueNeighbour(g, root, visited, newSeen, component, newQueue, robot, neighbour);
        newSeen, newQueue := newSeen + {neighbour}, newQueue + [neighbour];
      }
    }
    found := Some((newSeen, newQueue));
  }

  /** The robots reachable from `root` without entering `visited`, in breadth-first order. */
  method VisitFrom(g: Graph, root: RobotId, visited: set<RobotId>)
    returns (part: Option<seq<RobotId>>)
    requires root in g && root !in visited && ClosedSet(g, visited)
    ensures part.None? ==> !Known(g)
    ensures part.Some? ==>
      var ids := Elems(part.value);
      && root in ids && ids !! visited && ClosedSet(g, visited + ids)
      && forall a | a in ids :: Connected(g, root, a)
  {
    var queue, component := [root], [];
    var seen := visited + {root};
    ConnectedToItself(g, root);
    while queue != []
      invariant Searching(g, root, visited, seen, component, queue)
      invariant forall a | a in component :: g[a] <= seen
      decreases g.Keys - Elems(component)
    {
      var robot := queue[0];
      assert queue == [robot] + queue[1..];
      ghost var expanded := Elems(component);
      component := component + [robot];
      assert robot !in expanded && robot in Elems(component) && expanded <= Elems(component);
      var found := Expand(g, robot, seen, queue[1..], root, visited, component);
      if found.None? {
        return None;
      }
      seen, queue := found.value.0, found.value.1;
    }
    assert ClosedSet(g, visited + Elems(component));
    part := Some(component);
  }

  /** The parts found so far, when the outer loop has reached the `n`-th root. */
  ghost predicate Decomposing(
    g: Graph, roots: seq<RobotId>, n: nat, visited: set<RobotId>, parts: seq<seq<RobotId>>
  ) {
    && n <= |roots|
    && ClosedSet(g, visited)
    && (forall j | 0 <= j < n :: roots[j] in visited)
    && SortedParts(parts) && DisjointParts(parts)
    && (forall r :: r in visited <==> InSome(parts, r))
    && (forall k | 0 <= k < |parts| && parts[k] != [] :: n < |roots| ==> parts[k][0] < roots[n])
    && (Symmetric(g) ==> forall k | 0 <= k < |parts| :: FinishedPart(g, parts[k]))
  }

  /** Robots below an unvisited root are visited, so the root is its part's smallest member. */
  lemma RootComesFirst(g: Graph, n: nat, visited: set<RobotId>, part: seq<RobotId>)
    requires var roots := Ascending(g.Keys);
             n < |roots| && roots[n] in part && forall j | 0 <= j < n :: roots[j] in visited
    requires StrictlyAscending(part)
    requires forall a | a in part :: a in g && a !in visited
    ensures part[0] == Ascending(g.Keys)[n]
  {
    var roots := Ascending(g.Keys);
    assert part[0] in roots;
    var j :| 0 <= j < |roots| && roots[j] == part[0];
    assert j >= n;
    var i :| 0 <= i < |part| && part[i] == roots[n];
  }

  lemma GrowParts(parts: seq<seq<RobotId>>, part: seq<RobotId>, visited: set<RobotId>)
    requires SortedParts(parts) && DisjointParts(parts) && part != [] && StrictlyAscending(part)
    requires forall r :: r in visited <==> InSome(parts, r)
    requires forall r | r in part :: r !in visited
    requires forall k | 0 <= k < |parts| && parts[k] != [] :: parts[k][0] < part[0]
    ensures var grown := parts + [part];
            && SortedParts(grown) && DisjointParts(grown)
            && forall r :: r in visited + Elems(part) <==> InSome(grown, r)
  {
    var grown := parts + [part];
    assert forall k | 0 <= k < |parts| :: grown[k] == parts[k];
    forall r
      ensures r in visited + Elems(part) <==> InSome(grown, r)
    {
      if r in visited {
        var k :| 0 <= k < |parts| && r in parts[k];
        assert r in grown[k];
      } else if r in part {
        assert r in grown[|parts|];
      }
    }
    forall k, r | 0 <= k < |parts| && r in parts[k]
      ensures r !in part
    {
      assert InSome(parts, r);
    }
  }

  lemma EdgeIntoClosedSet(g: Graph, visited: set<RobotId>, a: RobotId, b: RobotId)
    requires Symmetric(g) && ClosedSet(g, visited) && a in g && b in g[a] && b in visited
    ensures a in visited
  {
    assert a in g[b];
  }

  /** In a symmetric graph no edge leads from a new part back into an older one. */
  lemma NewPartIsFinished(g: Graph, visited: set<RobotId>, part: seq<RobotId>)
    requires Symmetric(g) && ClosedSet(g, visited) && ClosedSet(g, visited + Elems(part))
    requires part != [] && forall a | a in part :: a !in visited && Connected(g, part[0], a)
    ensures FinishedPart(g, part)
  {
    forall a, b | a in part && b in g[a]
      ensures b in part
    {
      assert a in visited + Elems(part);
      if b in visited {
        EdgeIntoClosedSet(g, visited, a, b);
      }
    }
  }

  lemma MembersAreClosed(g: Graph, s: set<RobotId>, part: seq<RobotId>, visited: set<RobotId>)
    requires ClosedSet(g, s) && s == visited + Elems(part)
    ensures forall a | a in part :: a in g
    ensures visited <= s && forall a | a in part :: a in s
  {
    assert forall a | a in part :: a in Elems(part);
  }

  lemma AddPart(g: Graph, n: nat, visited: set<RobotId>, parts: seq<seq<RobotId>>, part: seq<RobotId>)
    requires var roots := Ascending(g.Keys);
             && Decomposing(g, roots, n, visited, parts) && n < |roots|
             && roots[n] !in visited && roots[n] in part
             && forall a | a in part :: a !in visited && Connected(g, roots[n], a)
    requires StrictlyAscending(part) && ClosedSet(g, visited + Elems(part))
    ensures Decomposing(g, Ascending(g.Keys), n + 1, visited + Elems(part), parts + [part])
  {
    hide FinishedPart, DisjointParts, Connected, ClosedSet, InSome, Elems, Ascending;
    MembersAreClosed(g, visited + Elems(part), part, visited);
    RootComesFirst(g, n, visited, part);
    GrowParts(parts, part, visited);
    RootsAscend(g);
    if Symmetric(g) {
      NewPartIsFinished(g, visited, part);
    }
  }

  lemma RootsAscend(g: Graph)
    ensures StrictlyAscending(Ascending(g.Keys))
  {
  }

  lemma NoParts(g: Graph, roots: seq<RobotId>)
    ensures ClosedSet(g, {}) && Decomposing(g, roots, 0, {}, [])
  {
  }

  lemma SkipRoot(g: Graph, roots: seq<RobotId>, n: nat, visited: set<RobotId>, parts: seq<seq<RobotId>>)
    requires Decomposing(g, roots, n, visited, parts) && n < |roots|
    requires StrictlyAscending(roots) && roots[n] in visited
    ensures Decomposing(g, roots, n + 1, visited, parts)
  {
  }

  /** The ascending list of what the search from a root found is the next part. */
  lemma AddFound(g: Graph, n: nat, visited: set<RobotId>, parts: seq<seq<RobotId>>, ids: set<RobotId>)
    requires n < |Ascending(g.Keys)| && Decomposing(g, Ascending(g.Keys), n, visited, parts)
    requires ids !! visited && ClosedSet(g, visited + ids) && Ascending(g.Keys)[n] !in visited
    requires Ascending(g.Keys)[n] in ids && forall a | a in ids :: Connected(g, Ascending(g.Keys)[n], a)
    ensures ClosedSet(g, visited + ids)
    ensures Decomposing(g, Ascending(g.Keys), n + 1, visited + ids, parts + [Ascending(ids)])
  {
    hide Decomposing, Connected, ClosedSet;
    var part := Ascending(ids);
    assert Elems(part) == ids && Ascending(g.Keys)[n] in part;
    assert forall a | a in part :: a in ids;
    AddPart(g, n, visited, parts, part);
  }

  /** Visit the `n`-th root: if no earlier part has it, its part is the next one. */
  method VisitRoot(g: Graph, n: nat, visited: set<RobotId>, parts: seq<seq<RobotId>>)
    returns (r: Option<(set<RobotId>, seq<seq<RobotId>>)>)
    requires n < |Ascending(g.Keys)| && ClosedSet(g, visited) && Decomposing(g, Ascending(g.Keys), n, visited, parts)
    ensures r.None? ==> !Known(g)
    ensures r.Some? ==> ClosedSet(g, r.value.0) && Decomposing(g, Ascending(g.Keys), n + 1, r.value.0, r.value.1)
  {
    hide Decomposing, Connected, ClosedSet, Known;
    var root := Ascending(g.Keys)[n];
    if root in visited {
      SkipRoot(g, Ascending(g.Keys), n, visited, parts);
      return Some((visited, parts));
    }
    assert root in g.Keys;
    var part := VisitFrom(g, root, visited);
    if part.None? {
      return None;
    }
    var ids := Elems(part.value);
    AddFound(g, n, visited, parts, ids);
    r := Some((visited + ids, parts + [Ascending(ids)]));
  }

  /** Connected components by breadth-first search from every unvisited robot in ascending order. */
  method DecomposeConnectedComponents(g: Graph) returns (r: Result<seq<seq<RobotId>>>)
    ensures r.Ok? <==> Known(g)
    ensures r.Raised? ==> r.error == InvalidInput
    ensures r.Ok? ==> IsPartition(g, r.value)
    ensures r.Ok? && Symmetric(g) ==> PartsAreConnected(g, r.value)
  {
    hide Decomposing, IsPartition, PartsAreConnected, ClosedSet, Known, Symmetric;
    var (visited, parts) := ({}, []);
    NoParts(g, Ascending(g.Keys));
    for n := 0 to |g.Keys|
      invariant ClosedSet(g, visited) && Decomposing(g, Ascending(g.Keys), n, visited, parts)
    {
      var found := VisitRoot(g, n, visited, parts);
      if found.None? {
        return Raised(InvalidInput);
      }
      visited, parts := found.value.0, found.value.1;
    }
    DecompositionDone(g, Ascending(g.Keys), visited, parts);
    r := Ok(parts);
  }

  lemma DecompositionDone(g: Graph, roots: seq<RobotId>, visited: set<RobotId>, parts: seq<seq<RobotId>>)
    requires Decomposing(g, roots, |roots|, visited, parts) && roots == Ascending(g.Keys)
    ensures Known(g) && IsPartition(g, parts)
    ensures Symmetric(g) ==> PartsAreConnected(g, parts)
  {
    forall r | r in g
      ensures r in visited
    {
      assert r in roots;
    }
    if Symmetric(g) {
      forall k, a, b | 0 <= k < |parts| && a in parts[k]
        ensures b in parts[k] <==> Connected(g, a, b)
      {
        FinishedPartIsComponent(g, parts[k], a, b);
      }
    }
  }

  /** Undirected adjacency of a list of ordered edges. */
  method BuildAdjacency(ids: set<RobotId>, edges: seq<Edge>) returns (r: Result<Graph>)
    ensures r.Ok? <==> forall e | e in edges :: e.0 in ids && e.1 in ids && e.0 < e.1
    ensures r.Raised? ==> r.error == InvalidInput
    ensures r.Ok? ==> r.value.Keys == ids && IsAdjacency(r.value, ids, edges) && Symmetric(r.value) && Known(r.value)
  {
    hide IsAdjacency, Symmetric, Known;
    var g: Graph := map i | i in ids :: {};
    NoEdges(g, ids);
    for n := 0 to |edges|
      invariant forall k | 0 <= k < n :: edges[k].0 in ids && edges[k].1 in ids && edges[k].0 < edges[k].1
      invariant g.Keys == ids && IsAdjacency(g, ids, edges[..n])
    {
      var (i, j) := edges[n];
      assert edges[n] in edges;
      if i !in g || j !in g || i >= j {
        return Raised(InvalidInput);
      }
      AddEdge(g, ids, edges, n);
      g := g[i := g[i] + {j}];
      g := g[j := g[j] + {i}];
    }
    assert edges[..|edges|] == edges;
    AdjacencyIsSymmetric(g, ids, edges);
    r := Ok(g);
  }

  lemma NoEdges(g: Graph, ids: set<RobotId>)
    requires g == map i | i in ids :: {}
    ensures IsAdjacency(g, ids, [])
  {
  }

  lemma AdjacencyIsSymmetric(g: Graph, ids: set<RobotId>, edges: seq<Edge>)
    requires IsAdjacency(g, ids, edges) && forall e | e in edges :: e.0 in ids && e.1 in ids
    ensures Symmetric(g) && Known(g)
  {
  }

  lemma AddEdge(g: Graph, ids: set<RobotId>, edges: seq<Edge>, n: nat)
    requires n < |edges| && IsAdjacency(g, ids, edges[..n])
    requires edges[n].0 in ids && edges[n].1 in ids && edges[n].0 < edges[n].1
    ensures var (i, j) := edges[n];
            IsAdjacency(g[i := g[i] + {j}][j := g[j] + {i}], ids, edges[..n + 1])
  {
    var (i, j) := edges[n];
    var h := g[i := g[i] + {j}][j := g[j] + {i}];
    assert edges[..n + 1] == edges[..n] + [(i, j)];
    forall a, b | a in h
      ensures b in h[a] <==> (a, b) in edges[..n + 1] || (b, a) in edges[..n + 1]
    {
      assert b in h[a] <==> b in g[a] || (a == i && b == j) || (a == j && b == i);
    }
  }

  ghost predicate IsAdjacency(g: Graph, ids: set<RobotId>, edges: seq<Edge>) {
    && g.Keys == ids
    && forall a, b :: a in g ==> (b in g[a] <==> (a, b) in edges || (b, a) in edges)
  }
}
