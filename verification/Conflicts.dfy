/** Pairwise action compatibility, no-good constraints and the conflict model of one tick. */
module Conflicts {
  import opened Basics
  import opened Components
  import opened Geometry
  import opened Models
  import opened NoGoods

  /** Safety of the four action pairs of two robots. */
  datatype Compatibility = Compatibility(
    robotI: RobotId,
    robotJ: RobotId,
    pausePause: bool,
    pauseResume: bool,
    resumePause: bool,
    resumeResume: bool
  ) {
    predicate IsSafe(i: Action, j: Action) {
      match (i, j)
      case (Pause, Pause) => pausePause
      case (Pause, Resume) => pauseResume
      case (Resume, Pause) => resumePause
      case (Resume, Resume) => resumeResume
    }

    predicate AllSafe() {
      pausePause && pauseResume && resumePause && resumeResume
    }

    /** The unsafe entries of the table, Pause entries first. */
    function Forbidden(): seq<(Action, Action)> {
      (if pausePause then [] else [(Pause, Pause)])
      + (if pauseResume then [] else [(Pause, Resume)])
      + (if resumePause then [] else [(Resume, Pause)])
      + (if resumeResume then [] else [(Resume, Resume)])
    }

    function NoGoodOf(actions: (Action, Action)): Clause {
      Clause(Literal(robotI, actions.0), Literal(robotJ, actions.1))
    }

    /** One binary no-good per unsafe action pair. */
    function NoGoodConstraints(): seq<Clause> {
      var forbidden := Forbidden();
      seq(|forbidden|, n requires 0 <= n < |forbidden| => NoGoodOf(forbidden[n]))
    }
  }

  /** The pair is safe under `a` exactly when none of its no-goods is violated. */
  predicate PairSafe(p: Compatibility, a: Assignment) {
    p.robotI in a && p.robotJ in a && p.IsSafe(a[p.robotI], a[p.robotJ])
  }

  lemma ForbiddenIsUnsafe(p: Compatibility, i: Action, j: Action)
    ensures (i, j) in p.Forbidden() <==> !p.IsSafe(i, j)
  {
  }

  lemma NoGoodMembership(p: Compatibility, c: Clause)
    ensures c in p.NoGoodConstraints() <==>
            c == p.NoGoodOf((c.first.forbidden, c.second.forbidden))
            && !p.IsSafe(c.first.forbidden, c.second.forbidden)
  {
    var f, cs := p.Forbidden(), p.NoGoodConstraints();
    if c in cs {
      var n :| 0 <= n < |cs| && cs[n] == c;
      assert c == p.NoGoodOf(f[n]) && f[n] in f;
      ForbiddenIsUnsafe(p, f[n].0, f[n].1);
    }
    var actions := (c.first.forbidden, c.second.forbidden);
    ForbiddenIsUnsafe(p, actions.0, actions.1);
    if actions in f && c == p.NoGoodOf(actions) {
      var n :| 0 <= n < |f| && f[n] == actions;
      assert cs[n] == c;
    }
  }

  /** The clause encoding is exact: satisfying a pair's no-goods means choosing a safe action pair. */
  lemma NoGoodsEncodeCompatibility(p: Compatibility, a: Assignment)
    requires p.robotI in a && p.robotJ in a
    ensures (forall c | c in p.NoGoodConstraints() :: Satisfied(c, a)) <==> PairSafe(p, a)
  {
    var chosen := p.NoGoodOf((a[p.robotI], a[p.robotJ]));
    NoGoodMembership(p, chosen);
    forall c | c in p.NoGoodConstraints() && PairSafe(p, a)
      ensures Satisfied(c, a)
    {
      NoGoodMembership(p, c);
    }
  }

  // ---------------------------------------------------------------- clauses of several pairs

  function ClausesOf(pairs: seq<Compatibility>): seq<Clause> {
    if pairs == [] then [] else pairs[0].NoGoodConstraints() + ClausesOf(pairs[1..])
  }

  lemma {:induction false} ClauseMembership(pairs: seq<Compatibility>, c: Clause)
    ensures c in ClausesOf(pairs) <==> exists p | p in pairs :: c in p.NoGoodConstraints()
  {
    if pairs != [] {
      ClauseMembership(pairs[1..], c);
      assert pairs == [pairs[0]] + pairs[1..];
    }
  }

  predicate OrderedPairs(pairs: seq<Compatibility>, ids: set<RobotId>) {
    forall p | p in pairs :: p.robotI < p.robotJ && p.robotI in ids && p.robotJ in ids
  }

  predicate PairsSafe(pairs: seq<Compatibility>, a: Assignment) {
    forall p | p in pairs :: PairSafe(p, a)
  }

  lemma ClausesAreOver(pairs: seq<Compatibility>, ids: set<RobotId>)
    requires OrderedPairs(pairs, ids)
    ensures Over(ClausesOf(pairs), ids)
  {
    forall c | c in ClausesOf(pairs)
      ensures c.first.robot in ids && c.second.robot in ids && c.first.robot != c.second.robot
    {
      ClauseMembership(pairs, c);
      var p :| p in pairs && c in p.NoGoodConstraints();
      NoGoodMembership(p, c);
    }
  }

  /** Solving the clauses of a set of pairs is choosing safe actions for each of the pairs. */
  lemma ClausesEncodePairs(pairs: seq<Compatibility>, a: Assignment, ids: set<RobotId>)
    requires OrderedPairs(pairs, ids) && a.Keys == ids
    ensures Solves(a, ids, ClausesOf(pairs)) <==> PairsSafe(pairs, a)
  {
    if PairsSafe(pairs, a) {
      forall c | c in ClausesOf(pairs)
        ensures Satisfied(c, a)
      {
        ClauseMembership(pairs, c);
        var p :| p in pairs && c in p.NoGoodConstraints();
        NoGoodsEncodeCompatibility(p, a);
      }
    }
    if Solves(a, ids, ClausesOf(pairs)) {
      forall p | p in pairs
        ensures PairSafe(p, a)
      {
        forall c | c in p.NoGoodConstraints()
          ensures Satisfied(c, a)
        {
          ClauseMembership(pairs, c);
        }
        NoGoodsEncodeCompatibility(p, a);
      }
    }
  }

  /** The pairs with both robots in a component. */
  function ComponentPairs(ids: set<RobotId>, pairs: seq<Compatibility>): (within: seq<Compatibility>)
    ensures forall p :: p in within <==> p in pairs && p.robotI in ids && p.robotJ in ids
  {
    if pairs == [] then
      []
    else
      var rest := ComponentPairs(ids, pairs[1..]);
      assert pairs == [pairs[0]] + pairs[1..];
      if pairs[0].robotI in ids && pairs[0].robotJ in ids then [pairs[0]] + rest else rest
  }

  // ---------------------------------------------------------------- the model of one tick

  datatype ConflictModel = ConflictModel(
    snapshots: map<RobotId, Snapshot>,
    pairs: seq<Compatibility>,
    noGoods: seq<Clause>,
    edges: seq<Edge>,
    adjacency: Graph,
    isolated: seq<RobotId>,
    components: seq<seq<RobotId>>
  ) {
    predicate Unavailable(r: RobotId) {
      r in snapshots && snapshots[r].Unavailable()
    }

    predicate HasConflict(r: RobotId) {
      r in adjacency && adjacency[r] != {}
    }
  }

  lemma {:induction false} ComponentPairsSorted(ids: set<RobotId>, pairs: seq<Compatibility>)
    requires PairsSorted(pairs)
    ensures PairsSorted(ComponentPairs(ids, pairs))
  {
    if pairs != [] {
      hide PairBefore;
      ComponentPairsSorted(ids, pairs[1..]);
      SortedPrepend(pairs[0], ComponentPairs(ids, pairs[1..]), pairs);
    }
  }

  lemma SortedPrepend(first: Compatibility, rest: seq<Compatibility>, pairs: seq<Compatibility>)
    requires PairsSorted(pairs) && pairs != [] && pairs[0] == first
    requires PairsSorted(rest) && forall p | p in rest :: p in pairs[1..]
    ensures PairsSorted([first] + rest)
  {
    hide PairBefore;
    forall j | 0 <= j < |rest|
      ensures PairBefore(first, rest[j])
    {
      assert rest[j] in pairs[1..];
    }
  }

  lemma PairsWithinComponent(m: ConflictModel, c: seq<RobotId>)
    requires OrderedPairs(m.pairs, m.snapshots.Keys)
    ensures OrderedPairs(ComponentPairs(Elems(c), m.pairs), Elems(c))
  {
  }

  predicate Links(p: Compatibility, a: RobotId, b: RobotId) {
    (p.robotI == a && p.robotJ == b) || (p.robotI == b && p.robotJ == a)
  }

  /** Pairs are listed in strictly increasing robot order. */
  predicate PairsSorted(pairs: seq<Compatibility>) {
    forall k, l | 0 <= k < l < |pairs| :: PairBefore(pairs[k], pairs[l])
  }

  predicate PairBefore(p: Compatibility, q: Compatibility) {
    p.robotI < q.robotI || (p.robotI == q.robotI && p.robotJ < q.robotJ)
  }

  predicate IdsMatch(snapshots: map<RobotId, Snapshot>) {
    forall r | r in snapshots :: snapshots[r].id == r
  }

  /** Neighbours are exactly the robots with which some action pair is unsafe. */
  ghost predicate EdgesAreConflicts(m: ConflictModel) {
    forall a, b | a in m.adjacency ::
      b in m.adjacency[a] <==> exists p | p in m.pairs :: Links(p, a, b) && !p.AllSafe()
  }

  ghost predicate IsolatedHaveNoConflict(m: ConflictModel) {
    StrictlyAscending(m.isolated) && forall r :: r in m.isolated <==> r in m.snapshots && !m.HasConflict(r)
  }

  /** Structural well-formedness of a conflict model, whatever geometry it came from. */
  ghost predicate WellFormedModel(m: ConflictModel) {
    && IdsMatch(m.snapshots)
    && OrderedPairs(m.pairs, m.snapshots.Keys)
    && PairsSorted(m.pairs)
    && m.noGoods == ClausesOf(m.pairs)
    && m.adjacency.Keys == m.snapshots.Keys
    && EdgesAreConflicts(m)
    && IsolatedHaveNoConflict(m)
    && IsPartition(m.adjacency, m.components)
    && PartsAreConnected(m.adjacency, m.components)
  }

  function Evaluate(k: Kernel, i: Snapshot, j: Snapshot): Compatibility {
    Compatibility(
      i.id, j.id,
      !k.intersects(Envelope(k, i, Pause), Envelope(k, j, Pause)),
      !k.intersects(Envelope(k, i, Pause), Envelope(k, j, Resume)),
      !k.intersects(Envelope(k, i, Resume), Envelope(k, j, Pause)),
      !k.intersects(Envelope(k, i, Resume), Envelope(k, j, Resume))
    )
  }

  /** The compatibility table is the geometry's answer for every pair of robots. */
  ghost predicate Faithful(m: ConflictModel, k: Kernel) {
    && (forall p | p in m.pairs ::
          p.robotI in m.snapshots && p.robotJ in m.snapshots
          && p == Evaluate(k, m.snapshots[p.robotI], m.snapshots[p.robotJ]))
    && (forall i, j | i in m.snapshots && j in m.snapshots && i < j ::
          Evaluate(k, m.snapshots[i], m.snapshots[j]) in m.pairs)
  }

  /** Two robots' envelopes meet under the given actions. */
  ghost predicate Clash(m: ConflictModel, k: Kernel, a: Assignment, i: RobotId, j: RobotId) {
    && i in m.snapshots && j in m.snapshots && i in a && j in a
    && Overlap(Envelope(k, m.snapshots[i], a[i]), Envelope(k, m.snapshots[j], a[j]))
  }

  // ---------------------------------------------------------------- building the model

  predicate DistinctIds(snapshots: seq<Snapshot>) {
    forall i, j | 0 <= i < j < |snapshots| :: snapshots[i].id != snapshots[j].id
  }

  /** `byId` indexes exactly the observed snapshots. */
  ghost predicate Indexes(byId: map<RobotId, Snapshot>, snapshots: seq<Snapshot>) {
    && (forall s | s in snapshots :: s.id in byId && byId[s.id] == s)
    && (forall r | r in byId :: byId[r] in snapshots && byId[r].id == r)
  }

  method IndexSnapshots(snapshots: seq<Snapshot>) returns (r: Result<map<RobotId, Snapshot>>)
    ensures r.Ok? <==> DistinctIds(snapshots)
    ensures r.Raised? ==> r.error == InvalidInput
    ensures r.Ok? ==> Indexes(r.value, snapshots)
  {
    var byId: map<RobotId, Snapshot> := map[];
    for n := 0 to |snapshots|
      invariant DistinctIds(snapshots[..n]) && Indexes(byId, snapshots[..n])
    {
      assert snapshots[..n + 1] == snapshots[..n] + [snapshots[n]];
      if snapshots[n].id in byId {
        var earlier := byId[snapshots[n].id];
        assert earlier in snapshots[..n];
        var i :| 0 <= i < n && snapshots[..n][i] == earlier;
        assert snapshots[i].id == snapshots[n].id;
        return Raised(InvalidInput);
      }
      byId := byId[snapshots[n].id := snapshots[n]];
    }
    assert snapshots[..|snapshots|] == snapshots;
    r := Ok(byId);
  }

  /** The table rows produced so far when row `a` has been extended up to column `b`. */
  ghost predicate TableUpTo(
    pairs: seq<Compatibility>, ordered: seq<RobotId>, byId: map<RobotId, Snapshot>, k: Kernel, a: nat, b: nat
  )
    requires forall r | r in ordered :: r in byId && byId[r].id == r
  {
    && PairsSorted(pairs)
    && (forall p | p in pairs :: exists x, y ::
          Evaluated(p, ordered, byId, k, x, y) && (x < a || (x == a && y < b)))
    && (forall x, y | 0 <= x < y < |ordered| && (x < a || (x == a && y < b)) ::
          Evaluate(k, byId[ordered[x]], byId[ordered[y]]) in pairs)
  }

  ghost predicate Evaluated(
    p: Compatibility, ordered: seq<RobotId>, byId: map<RobotId, Snapshot>, k: Kernel, x: int, y: int
  )
    requires forall r | r in ordered :: r in byId && byId[r].id == r
  {
    0 <= x < y < |ordered| && p == Evaluate(k, byId[ordered[x]], byId[ordered[y]])
  }

  lemma ExtendTable(
    pairs: seq<Compatibility>, ordered: seq<RobotId>, byId: map<RobotId, Snapshot>, k: Kernel, a: nat, b: nat
  )
    requires forall r | r in ordered :: r in byId && byId[r].id == r
    requires StrictlyAscending(ordered) && a < b < |ordered|
    requires TableUpTo(pairs, ordered, byId, k, a, b)
    ensures TableUpTo(pairs + [Evaluate(k, byId[ordered[a]], byId[ordered[b]])], ordered, byId, k, a, b + 1)
  {
    hide PairsSorted, PairBefore, Evaluated, StrictlyAscending;
    var last := Evaluate(k, byId[ordered[a]], byId[ordered[b]]);
    LastEntry(ordered, byId, k, a, b);
    forall p | p in pairs
      ensures PairBefore(p, last)
      ensures exists x, y :: Evaluated(p, ordered, byId, k, x, y) && (x < a || (x == a && y < b + 1))
    {
      var x, y :| Evaluated(p, ordered, byId, k, x, y) && (x < a || (x == a && y < b));
      EarlierEntry(p, ordered, byId, k, x, y, a, b);
    }
    SortedAppend(pairs, last);
    hide Evaluate;
    assert last in pairs + [last];
  }

  lemma LastEntry(ordered: seq<RobotId>, byId: map<RobotId, Snapshot>, k: Kernel, a: nat, b: nat)
    requires forall r | r in ordered :: r in byId && byId[r].id == r
    requires a < b < |ordered|
    ensures Evaluated(Evaluate(k, byId[ordered[a]], byId[ordered[b]]), ordered, byId, k, a, b)
  {
  }

  lemma EarlierEntry(
    p: Compatibility, ordered: seq<RobotId>, byId: map<RobotId, Snapshot>, k: Kernel, x: int, y: int, a: nat, b: nat
  )
    requires forall r | r in ordered :: r in byId && byId[r].id == r
    requires StrictlyAscending(ordered) && a < b < |ordered|
    requires Evaluated(p, ordered, byId, k, x, y) && (x < a || (x == a && y < b))
    ensures PairBefore(p, Evaluate(k, byId[ordered[a]], byId[ordered[b]]))
  {
    assert p.robotI == ordered[x] && p.robotJ == ordered[y];
  }

  lemma SortedAppend(pairs: seq<Compatibility>, last: Compatibility)
    requires PairsSorted(pairs) && forall p | p in pairs :: PairBefore(p, last)
    ensures PairsSorted(pairs + [last])
  {
    hide PairBefore;
    var grown := pairs + [last];
    forall i, j | 0 <= i < j < |grown|
      ensures PairBefore(grown[i], grown[j])
    {
      if j == |pairs| {
        assert grown[i] in pairs;
      }
    }
  }

  lemma NextRow(
    pairs: seq<Compatibility>, ordered: seq<RobotId>, byId: map<RobotId, Snapshot>, k: Kernel, a: nat, b: nat
  )
    requires forall r | r in ordered :: r in byId && byId[r].id == r
    requires TableUpTo(pairs, ordered, byId, k, a, b) && b >= |ordered|
    ensures TableUpTo(pairs, ordered, byId, k, a + 1, a + 2)
  {
    forall p | p in pairs
      ensures exists x, y :: Evaluated(p, ordered, byId, k, x, y) && (x < a + 1 || (x == a + 1 && y < a + 2))
    {
      var x, y :| Evaluated(p, ordered, byId, k, x, y) && (x < a || (x == a && y < b));
    }
  }

  /** Row `a` of the table: robot `a` against every later robot. */
  method EvaluateRow(
    pairs: seq<Compatibility>, ordered: seq<RobotId>, byId: map<RobotId, Snapshot>, k: Kernel, a: nat
  )
    returns (grown: seq<Compatibility>)
    requires forall r | r in ordered :: r in byId && byId[r].id == r
    requires StrictlyAscending(ordered) && a < |ordered|
    requires TableUpTo(pairs, ordered, byId, k, a, a + 1)
    ensures TableUpTo(grown, ordered, byId, k, a + 1, a + 2)
  {
    grown := pairs;
    for b := a + 1 to |ordered|
      invariant TableUpTo(grown, ordered, byId, k, a, b)
    {
      ExtendTable(grown, ordered, byId, k, a, b);
      grown := grown + [Evaluate(k, byId[ordered[a]], byId[ordered[b]])];
    }
    NextRow(grown, ordered, byId, k, a, |ordered|);
  }

  /** The compatibility of every unordered pair, in sorted order. */
  method EvaluateAllPairs(byId: map<RobotId, Snapshot>, k: Kernel) returns (pairs: seq<Compatibility>)
    requires IdsMatch(byId)
    ensures OrderedPairs(pairs, byId.Keys) && PairsSorted(pairs)
    ensures forall p | p in pairs :: p == Evaluate(k, byId[p.robotI], byId[p.robotJ])
    ensures forall i, j | i in byId && j in byId && i < j :: Evaluate(k, byId[i], byId[j]) in pairs
  {
    var ordered := Ascending(byId.Keys);
    assert forall r | r in ordered :: r in Elems(ordered);
    pairs := [];
    for a := 0 to |ordered|
      invariant TableUpTo(pairs, ordered, byId, k, a, a + 1)
    {
      pairs := EvaluateRow(pairs, ordered, byId, k, a);
    }
    TableComplete(pairs, ordered, byId, k);
  }

  lemma TableComplete(pairs: seq<Compatibility>, ordered: seq<RobotId>, byId: map<RobotId, Snapshot>, k: Kernel)
    requires forall r | r in byId :: byId[r].id == r
    requires ordered == Ascending(byId.Keys) && forall r | r in ordered :: r in byId
    requires TableUpTo(pairs, ordered, byId, k, |ordered|, |ordered| + 1)
    ensures OrderedPairs(pairs, byId.Keys)
    ensures forall p | p in pairs :: p == Evaluate(k, byId[p.robotI], byId[p.robotJ])
    ensures forall i, j | i in byId && j in byId && i < j :: Evaluate(k, byId[i], byId[j]) in pairs
  {
    forall p | p in pairs
      ensures p.robotI < p.robotJ && p.robotI in byId && p.robotJ in byId
      ensures p == Evaluate(k, byId[p.robotI], byId[p.robotJ])
    {
      var x, y :| Evaluated(p, ordered, byId, k, x, y);
      assert p.robotI == ordered[x] && p.robotJ == ordered[y];
    }
    forall i, j | i in byId && j in byId && i < j
      ensures Evaluate(k, byId[i], byId[j]) in pairs
    {
      RowOf(ordered, byId.Keys, i, j);
    }
  }

  lemma RowOf(ordered: seq<RobotId>, ids: set<RobotId>, i: RobotId, j: RobotId)
    requires StrictlyAscending(ordered) && Elems(ordered) == ids && i in ids && j in ids && i < j
    ensures exists x, y | 0 <= x < y < |ordered| :: ordered[x] == i && ordered[y] == j
  {
    assert i in ordered && j in ordered;
    var x :| 0 <= x < |ordered| && ordered[x] == i;
    var y :| 0 <= y < |ordered| && ordered[y] == j;
    assert x < y;
  }

  function EdgesOf(pairs: seq<Compatibility>): (edges: seq<Edge>)
    ensures forall a, b :: (a, b) in edges <==> exists p :: p in pairs && p.robotI == a && p.robotJ == b && !p.AllSafe()
  {
    if pairs == [] then
      []
    else
      var rest := EdgesOf(pairs[1..]);
      assert pairs == [pairs[0]] + pairs[1..];
      if pairs[0].Forbidden() != [] then [(pairs[0].robotI, pairs[0].robotJ)] + rest else rest
  }

  /** Evaluate every pair and build the constraints, the graph and its components. */
  method BuildConflictModel(snapshots: seq<Snapshot>, k: Kernel) returns (r: Result<ConflictModel>)
    ensures r.Ok? <==> DistinctIds(snapshots)
    ensures r.Raised? ==> r.error == InvalidInput
    ensures r.Ok? ==> Indexes(r.value.snapshots, snapshots)
    ensures r.Ok? ==> WellFormedModel(r.value) && Faithful(r.value, k)
  {
    hide DistinctIds, IdsMatch, WellFormedModel, Faithful, PairsSorted, OrderedPairs, IsAdjacency, Symmetric, Known,
      IsPartition, PartsAreConnected, ClausesOf, EdgesOf, Evaluate;
    var index := IndexSnapshots(snapshots);
    if index.Raised? {
      return Raised(InvalidInput);
    }
    var byId := index.value;
    IndexedByOwnId(byId, snapshots);
    var pairs := EvaluateAllPairs(byId, k);
    var edges := EdgesOf(pairs);
    EdgesAreOrdered(pairs, byId.Keys);
    var graph := BuildAdjacency(byId.Keys, edges);
    if graph.Raised? {
      return Raised(InvalidInput);
    }
    var adjacency := graph.value;
    var parts := DecomposeConnectedComponents(adjacency);
    if parts.Raised? {
      return Raised(InvalidInput);
    }
    var isolated := Ascending(set i | i in byId && adjacency[i] == {});
    var m := ConflictModel(byId, pairs, ClausesOf(pairs), edges, adjacency, isolated, parts.value);
    Assemble(m, k);
    r := Ok(m);
  }

  lemma IndexedByOwnId(byId: map<RobotId, Snapshot>, snapshots: seq<Snapshot>)
    requires Indexes(byId, snapshots)
    ensures IdsMatch(byId)
  {
  }

  lemma Assemble(m: ConflictModel, k: Kernel)
    requires IdsMatch(m.snapshots)
    requires OrderedPairs(m.pairs, m.snapshots.Keys) && PairsSorted(m.pairs)
    requires forall p | p in m.pairs ::
               p.robotI in m.snapshots && p.robotJ in m.snapshots
               && p == Evaluate(k, m.snapshots[p.robotI], m.snapshots[p.robotJ])
    requires forall i, j | i in m.snapshots && j in m.snapshots && i < j ::
               Evaluate(k, m.snapshots[i], m.snapshots[j]) in m.pairs
    requires m.noGoods == ClausesOf(m.pairs)
    requires IsAdjacency(m.adjacency, m.snapshots.Keys, EdgesOf(m.pairs))
    requires m.adjacency.Keys == m.snapshots.Keys
    requires m.isolated == Ascending(set i | i in m.snapshots && m.adjacency[i] == {})
    requires IsPartition(m.adjacency, m.components) && PartsAreConnected(m.adjacency, m.components)
    ensures WellFormedModel(m) && Faithful(m, k)
  {
    hide IdsMatch, OrderedPairs, PairsSorted, ClausesOf, EdgesOf, Evaluate, IsAdjacency, EdgesAreConflicts,
      IsolatedHaveNoConflict, IsPartition, PartsAreConnected, Ascending;
    AdjacencyFromPairs(m);
    IsolatedRobots(m);
  }

  lemma EdgesAreOrdered(pairs: seq<Compatibility>, ids: set<RobotId>)
    requires OrderedPairs(pairs, ids)
    ensures forall e | e in EdgesOf(pairs) :: e.0 in ids && e.1 in ids && e.0 < e.1
  {
    forall e | e in EdgesOf(pairs)
      ensures e.0 in ids && e.1 in ids && e.0 < e.1
    {
      assert (e.0, e.1) in EdgesOf(pairs);
    }
  }

  lemma AdjacencyFromPairs(m: ConflictModel)
    requires IsAdjacency(m.adjacency, m.snapshots.Keys, EdgesOf(m.pairs))
    ensures EdgesAreConflicts(m)
  {
    forall a, b | a in m.adjacency
      ensures b in m.adjacency[a] <==> exists p | p in m.pairs :: Links(p, a, b) && !p.AllSafe()
    {
      var edges := EdgesOf(m.pairs);
      assert b in m.adjacency[a] <==> (a, b) in edges || (b, a) in edges;
    }
  }

  lemma IsolatedRobots(m: ConflictModel)
    requires m.adjacency.Keys == m.snapshots.Keys
    requires m.isolated == Ascending(set i | i in m.snapshots && m.adjacency[i] == {})
    ensures IsolatedHaveNoConflict(m)
  {
    var lonely := set i | i in m.snapshots && m.adjacency[i] == {};
    assert forall r :: r in m.isolated <==> r in Elems(m.isolated);
    assert Elems(m.isolated) == lonely;
  }
}
