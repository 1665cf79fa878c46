/** Solving each connected component separately is exact, for safety and for the objective. */
module Decomposition {
  import opened Basics
  import opened Components
  import opened Conflicts
  import opened NoGoods
  import opened Objective

  /** A component that needs a decision: at least two robots joined by conflict edges. */
  predicate IsConflictComponent(m: ConflictModel, c: seq<RobotId>) {
    |c| >= 2 && exists r | r in c :: m.HasConflict(r)
  }

  predicate FleetSafe(m: ConflictModel, a: Assignment) {
    a.Keys == m.snapshots.Keys && PairsSafe(m.pairs, a)
  }

  predicate ComponentSafe(m: ConflictModel, c: seq<RobotId>, a: Assignment) {
    a.Keys == Elems(c) && PairsSafe(ComponentPairs(Elems(c), m.pairs), a)
  }

  // ---------------------------------------------------------------- structure

  lemma MemberIsObserved(m: ConflictModel, k: nat, r: RobotId)
    requires WellFormedModel(m) && k < |m.components| && r in m.components[k]
    ensures r in m.snapshots
  {
    assert InSome(m.components, r);
    assert r in m.adjacency;
  }

  /** A conflicting pair never straddles two components. */
  lemma ConflictStaysInside(m: ConflictModel, p: Compatibility, k: nat)
    requires WellFormedModel(m) && p in m.pairs && !p.AllSafe() && k < |m.components|
    ensures p.robotI in m.components[k] <==> p.robotJ in m.components[k]
  {
    EdgeStaysInside(m, p, k, p.robotI, p.robotJ);
    EdgeStaysInside(m, p, k, p.robotJ, p.robotI);
  }

  lemma EdgeStaysInside(m: ConflictModel, p: Compatibility, k: nat, a: RobotId, b: RobotId)
    requires WellFormedModel(m) && p in m.pairs && !p.AllSafe() && Links(p, a, b) && k < |m.components|
    ensures a in m.components[k] ==> b in m.components[k]
  {
    if a in m.components[k] {
      assert p.robotI in m.snapshots && p.robotJ in m.snapshots;
      assert b in m.adjacency[a];
      ConnectedToItself(m.adjacency, a);
      ExtendWalk(m.adjacency, a, a, b);
    }
  }

  /** Robots of a component of two or more all have a conflict; the robot of a singleton has none. */
  lemma ConflictExactlyInLargeComponents(m: ConflictModel, k: nat, r: RobotId)
    requires WellFormedModel(m) && k < |m.components| && r in m.components[k]
    ensures m.HasConflict(r) <==> |m.components[k]| >= 2
    ensures m.HasConflict(r) <==> IsConflictComponent(m, m.components[k])
  {
    var c := m.components[k];
    MemberIsObserved(m, k, r);
    if m.HasConflict(r) {
      NeighbourInside(m, k, r);
    }
    if |c| >= 2 {
      var other := if c[0] == r then c[1] else c[0];
      assert other in c && other != r;
      assert Connected(m.adjacency, r, other);
      FirstStep(m.adjacency, r, other);
    }
  }

  lemma NeighbourInside(m: ConflictModel, k: nat, r: RobotId)
    requires WellFormedModel(m) && k < |m.components| && r in m.components[k] && m.HasConflict(r)
    ensures |m.components[k]| >= 2
  {
    hide IsolatedHaveNoConflict, PartsAreConnected, IsPartition, PairsSorted, ClausesOf, IdsMatch;
    NonEmpty(m.adjacency[r]);
    var n :| n in m.adjacency[r];
    MemberIsObserved(m, k, r);
    var p :| p in m.pairs && Links(p, r, n) && !p.AllSafe();
    EdgeStaysInside(m, p, k, r, n);
    assert r != n;
    var i :| 0 <= i < |m.components[k]| && m.components[k][i] == r;
    var j :| 0 <= j < |m.components[k]| && m.components[k][j] == n;
  }

  lemma FirstStep(g: Graph, a: RobotId, b: RobotId)
    requires Connected(g, a, b) && a != b
    ensures a in g && g[a] != {}
  {
    var w :| IsWalk(g, w) && w[0] == a && w[|w| - 1] == b;
    assert |w| >= 2;
    assert w[1] in g[w[0]];
  }

  // ---------------------------------------------------------------- safety

  lemma RestrictedPair(p: Compatibility, a: Assignment, ids: set<RobotId>)
    requires p.robotI in ids && p.robotJ in ids
    ensures PairSafe(p, Restrict(a, ids)) <==> PairSafe(p, a)
  {
  }

  /** A safe fleet assignment is safe in every component. */
  lemma SafeRestricts(m: ConflictModel, a: Assignment, k: nat)
    requires WellFormedModel(m) && FleetSafe(m, a) && k < |m.components|
    ensures ComponentSafe(m, m.components[k], Restrict(a, Elems(m.components[k])))
  {
    hide WellFormedModel, Restrict, PairSafe;
    RestrictKeys(m, a, k);
    var ids := Elems(m.components[k]);
    forall p | p in ComponentPairs(ids, m.pairs)
      ensures PairSafe(p, Restrict(a, ids))
    {
      RestrictedPair(p, a, ids);
    }
  }

  /** The component that holds both robots of a conflicting pair. */
  lemma ComponentOfConflict(m: ConflictModel, p: Compatibility) returns (k: nat)
    requires WellFormedModel(m) && p in m.pairs && !p.AllSafe()
    ensures k < |m.components| && p.robotI in m.components[k] && p.robotJ in m.components[k]
  {
    hide IsolatedHaveNoConflict, PairsSorted, ClausesOf, IdsMatch, PartsAreConnected, SortedParts, DisjointParts,
      EdgesAreConflicts;
    assert p.robotI in m.adjacency && InSome(m.components, p.robotI);
    k :| 0 <= k < |m.components| && p.robotI in m.components[k];
    ConflictStaysInside(m, p, k);
  }

  lemma AllSafePair(m: ConflictModel, p: Compatibility, a: Assignment)
    requires OrderedPairs(m.pairs, m.snapshots.Keys) && p in m.pairs && p.AllSafe() && a.Keys == m.snapshots.Keys
    ensures PairSafe(p, a)
  {
    assert p.robotI in a && p.robotJ in a;
  }

  lemma SafePairUnites(m: ConflictModel, a: Assignment, p: Compatibility)
    requires WellFormedModel(m) && p in m.pairs && !p.AllSafe()
    requires forall k | 0 <= k < |m.components| ::
               ComponentSafe(m, m.components[k], Restrict(a, Elems(m.components[k])))
    ensures PairSafe(p, a)
  {
    hide WellFormedModel, Restrict, PairSafe;
    var k := ComponentOfConflict(m, p);
    assert p in ComponentPairs(Elems(m.components[k]), m.pairs);
    assert ComponentSafe(m, m.components[k], Restrict(a, Elems(m.components[k])));
    RestrictedPair(p, a, Elems(m.components[k]));
  }

  lemma WellFormedIsolation(m: ConflictModel)
    requires WellFormedModel(m)
    ensures IsolatedHaveNoConflict(m) && IdsMatch(m.snapshots)
  {
  }

  lemma WellFormedPairs(m: ConflictModel)
    requires WellFormedModel(m)
    ensures OrderedPairs(m.pairs, m.snapshots.Keys) && PairsSorted(m.pairs)
  {
  }

  /** A fleet assignment is safe exactly when its restriction to every component is. */
  lemma SafetyDecomposes(m: ConflictModel, a: Assignment)
    requires WellFormedModel(m) && a.Keys == m.snapshots.Keys
    ensures FleetSafe(m, a) <==>
            forall k | 0 <= k < |m.components| ::
              ComponentSafe(m, m.components[k], Restrict(a, Elems(m.components[k])))
  {
    hide WellFormedModel, ComponentSafe, Restrict, PairSafe;
    if FleetSafe(m, a) {
      forall k | 0 <= k < |m.components|
        ensures ComponentSafe(m, m.components[k], Restrict(a, Elems(m.components[k])))
      {
        SafeRestricts(m, a, k);
      }
    }
    if forall k | 0 <= k < |m.components| :: ComponentSafe(m, m.components[k], Restrict(a, Elems(m.components[k]))) {
      forall p | p in m.pairs
        ensures PairSafe(p, a)
      {
        if p.AllSafe() {
          WellFormedPairs(m);
          AllSafePair(m, p, a);
        } else {
          SafePairUnites(m, a, p);
        }
      }
    }
  }

  lemma RestrictKeys(m: ConflictModel, a: Assignment, k: nat)
    requires WellFormedModel(m) && m.snapshots.Keys <= a.Keys && k < |m.components|
    ensures Restrict(a, Elems(m.components[k])).Keys == Elems(m.components[k])
  {
    var ids := Elems(m.components[k]);
    forall r | r in ids
      ensures r in a
    {
      MemberIsObserved(m, k, r);
    }
  }

  /** The same statement for the no-good clauses themselves: all of them hold fleet-wide exactly when
      each component's restriction satisfies the component's own. */
  lemma NoGoodsDecompose(m: ConflictModel, a: Assignment)
    requires WellFormedModel(m) && a.Keys == m.snapshots.Keys
    ensures Solves(a, m.snapshots.Keys, m.noGoods) <==>
            forall k | 0 <= k < |m.components| ::
              var ids := Elems(m.components[k]);
              Solves(Restrict(a, ids), ids, ClausesOf(ComponentPairs(ids, m.pairs)))
  {
    ClausesEncodePairs(m.pairs, a, m.snapshots.Keys);
    SafetyDecomposes(m, a);
    forall k | 0 <= k < |m.components|
      ensures var ids := Elems(m.components[k]);
              Solves(Restrict(a, ids), ids, ClausesOf(ComponentPairs(ids, m.pairs)))
              <==> ComponentSafe(m, m.components[k], Restrict(a, ids))
    {
      var ids := Elems(m.components[k]);
      RestrictKeys(m, a, k);
      ClausesEncodePairs(ComponentPairs(ids, m.pairs), Restrict(a, ids), ids);
    }
  }

  // ---------------------------------------------------------------- objective

  function PartsTotal(parts: seq<seq<RobotId>>, chosen: set<RobotId>, w: Weights): int
    requires forall k | 0 <= k < |parts| :: Weighted(parts[k], w)
  {
    if parts == [] then 0 else Total(parts[0], chosen, w) + PartsTotal(parts[1..], chosen, w)
  }

  function Flatten(parts: seq<seq<RobotId>>): seq<RobotId> {
    if parts == [] then [] else parts[0] + Flatten(parts[1..])
  }

  lemma {:induction false} TotalConcat(s: seq<RobotId>, t: seq<RobotId>, chosen: set<RobotId>, w: Weights)
    requires Weighted(s + t, w)
    ensures Weighted(s, w) && Weighted(t, w)
    ensures Total(s + t, chosen, w) == Total(s, chosen, w) + Total(t, chosen, w)
  {
    assert forall r | r in s || r in t :: r in s + t;
    if s == [] {
      assert s + t == t;
    } else {
      assert (s + t)[1..] == s[1..] + t;
      TotalConcat(s[1..], t, chosen, w);
    }
  }

  /** Taking one robot out of the sum. */
  lemma TotalWithout(t: seq<RobotId>, i: nat, chosen: set<RobotId>, w: Weights)
    requires i < |t| && Weighted(t, w)
    ensures t[i] in w && Weighted(t[..i] + t[i + 1..], w)
    ensures Total(t, chosen, w)
            == (if t[i] in chosen then w[t[i]] else 0) + Total(t[..i] + t[i + 1..], chosen, w)
  {
    hide Total;
    var (before, after) := (t[..i], t[i + 1..]);
    assert t == before + t[i..];
    assert forall r | r in before + after :: r in t;
    TotalConcat(before, t[i..], chosen, w);
    TotalConcat(before, after, chosen, w);
    TotalUnrolls(t, i, chosen, w);
  }

  /** The value of a Resume set does not depend on the order in which robots are summed. */
  lemma {:induction false} TotalIgnoresOrder(s: seq<RobotId>, t: seq<RobotId>, chosen: set<RobotId>, w: Weights)
    requires Distinct(s) && Distinct(t) && (forall r :: r in s <==> r in t) && Weighted(s, w)
    ensures Weighted(t, w) && Total(s, chosen, w) == Total(t, chosen, w)
  {
    if s == [] {
      DistinctCardinality(t);
      assert Elems(t) == {};
    } else {
      hide Total, Distinct;
      assert s[0] in s && s[0] in t;
      var i :| 0 <= i < |t| && t[i] == s[0];
      RemoveElement(s, t, i);
      assert forall r | r in s[1..] :: r in s;
      assert Distinct(s[1..]) by {
        DistinctTail(s);
      }
      TotalIgnoresOrder(s[1..], t[..i] + t[i + 1..], chosen, w);
      TotalWithout(t, i, chosen, w);
      TotalUnrolls(s, 0, chosen, w);
      assert s[0..] == s;
    }
  }

  lemma DistinctTail(s: seq<RobotId>)
    requires Distinct(s) && s != []
    ensures Distinct(s[1..])
  {
  }

  lemma RemoveElement(s: seq<RobotId>, t: seq<RobotId>, i: nat)
    requires Distinct(s) && Distinct(t) && (forall r :: r in s <==> r in t) && s != [] && i < |t| && t[i] == s[0]
    ensures var rest := t[..i] + t[i + 1..];
            Distinct(rest) && forall r :: r in s[1..] <==> r in rest
  {
    var rest := t[..i] + t[i + 1..];
    RemoveAt(t, i);
    assert s == s[..0] + [s[0]] + s[1..];
    RemoveAt(s, 0);
    assert s[..0] + s[1..] == s[1..];
  }

  lemma RemoveAt(t: seq<RobotId>, i: nat)
    requires Distinct(t) && i < |t|
    ensures var rest := t[..i] + t[i + 1..];
            Distinct(rest) && forall r :: r in rest <==> r in t && r != t[i]
  {
    var rest := t[..i] + t[i + 1..];
    assert t == t[..i] + [t[i]] + t[i + 1..];
    assert forall j | 0 <= j < |rest| :: rest[j] == t[if j < i then j else j + 1];
  }

  lemma {:induction false} FlattenMembers(parts: seq<seq<RobotId>>, r: RobotId)
    ensures r in Flatten(parts) <==> InSome(parts, r)
  {
    if parts != [] {
      FlattenMembers(parts[1..], r);
      if r in parts[0] {
        assert InSome(parts, r);
      }
      if InSome(parts[1..], r) {
        var k :| 0 <= k < |parts[1..]| && r in parts[1..][k];
        assert r in parts[k + 1];
      }
      if InSome(parts, r) && r !in parts[0] {
        var k :| 0 <= k < |parts| && r in parts[k];
        assert r in parts[1..][k - 1];
      }
    }
  }

  lemma DistinctConcat(s: seq<RobotId>, t: seq<RobotId>)
    requires Distinct(s) && Distinct(t) && forall r | r in s :: r !in t
    ensures Distinct(s + t)
  {
    forall i, j | 0 <= i < j < |s + t|
      ensures (s + t)[i] != (s + t)[j]
    {
      if i < |s| <= j {
        assert s[i] in s && t[j - |s|] in t;
      }
    }
  }

  lemma {:induction false} FlattenDistinct(parts: seq<seq<RobotId>>)
    requires DisjointParts(parts) && forall k | 0 <= k < |parts| :: Distinct(parts[k])
    ensures Distinct(Flatten(parts))
  {
    if parts != [] {
      var rest := parts[1..];
      FlattenDistinct(rest);
      forall r | r in parts[0]
        ensures r !in Flatten(rest)
      {
        FlattenMembers(rest, r);
        assert forall k | 0 <= k < |rest| :: rest[k] == parts[k + 1];
      }
      DistinctConcat(parts[0], Flatten(rest));
    }
  }

  lemma {:induction false} FlattenTotal(parts: seq<seq<RobotId>>, chosen: set<RobotId>, w: Weights)
    requires forall k | 0 <= k < |parts| :: Weighted(parts[k], w)
    ensures Weighted(Flatten(parts), w) && Total(Flatten(parts), chosen, w) == PartsTotal(parts, chosen, w)
  {
    if parts != [] {
      FlattenTotal(parts[1..], chosen, w);
      TotalConcat(parts[0], Flatten(parts[1..]), chosen, w);
    }
  }

  lemma PartsAreWeighted(m: ConflictModel, w: Weights)
    requires WellFormedModel(m) && w.Keys == m.snapshots.Keys
    ensures forall k | 0 <= k < |m.components| :: Weighted(m.components[k], w)
    ensures Weighted(Ascending(m.snapshots.Keys), w)
  {
    hide WellFormedModel;
    forall k, r | 0 <= k < |m.components| && r in m.components[k]
      ensures r in w
    {
      MemberIsObserved(m, k, r);
    }
    assert forall r | r in Ascending(m.snapshots.Keys) :: r in Elems(Ascending(m.snapshots.Keys));
  }

  /** The components list every observed robot once. */
  lemma PartsListFleet(m: ConflictModel)
    requires WellFormedModel(m)
    ensures Distinct(Flatten(m.components)) && Distinct(Ascending(m.snapshots.Keys))
    ensures forall r :: r in Flatten(m.components) <==> r in Ascending(m.snapshots.Keys)
  {
    hide EdgesAreConflicts, IsolatedHaveNoConflict, PartsAreConnected, OrderedPairs, PairsSorted, ClausesOf, IdsMatch,
      InSome, Flatten;
    var fleet := Ascending(m.snapshots.Keys);
    FlattenDistinct(m.components);
    forall r
      ensures r in Flatten(m.components) <==> r in fleet
    {
      FlattenMembers(m.components, r);
      assert r in fleet <==> r in Elems(fleet);
      assert r in m.adjacency <==> r in m.snapshots;
    }
  }

  /** The fleet's objective is the sum of its components' objectives. */
  lemma ObjectiveDecomposes(m: ConflictModel, chosen: set<RobotId>, w: Weights)
    requires WellFormedModel(m) && w.Keys == m.snapshots.Keys
    ensures forall k | 0 <= k < |m.components| :: Weighted(m.components[k], w)
    ensures Weighted(Ascending(m.snapshots.Keys), w)
    ensures Total(Ascending(m.snapshots.Keys), chosen, w) == PartsTotal(m.components, chosen, w)
  {
    hide WellFormedModel, Flatten, Total, PartsTotal, Ascending, Distinct;
    PartsAreWeighted(m, w);
    FlattenTotal(m.components, chosen, w);
    PartsListFleet(m);
    TotalIgnoresOrder(Flatten(m.components), Ascending(m.snapshots.Keys), chosen, w);
  }

  /** No safe assignment of the component that keeps the hard actions has a larger value. */
  ghost predicate IsComponentMaximiser(m: ConflictModel, c: seq<RobotId>, hard: Assignment, a: Assignment, w: Weights)
    requires Weighted(c, w)
  {
    && ComponentSafe(m, c, a) && Extends(a, hard)
    && forall b :: ComponentSafe(m, c, b) && Extends(b, hard) ==> Total(c, Resumed(b), w) <= Total(c, Resumed(a), w)
  }

  /** No safe fleet assignment that keeps the hard actions has a larger value. */
  ghost predicate IsFleetMaximiser(m: ConflictModel, hard: Assignment, a: Assignment, w: Weights)
    requires Weighted(Ascending(m.snapshots.Keys), w)
  {
    var fleet := Ascending(m.snapshots.Keys);
    && FleetSafe(m, a) && Extends(a, hard)
    && forall b :: FleetSafe(m, b) && Extends(b, hard) ==> Total(fleet, Resumed(b), w) <= Total(fleet, Resumed(a), w)
  }

  /** Keeping the fleet's hard actions is keeping those of every component. */
  lemma HardDecomposes(m: ConflictModel, a: Assignment, hard: Assignment)
    requires WellFormedModel(m) && a.Keys == m.snapshots.Keys && hard.Keys <= m.snapshots.Keys
    ensures Extends(a, hard) <==>
            forall k | 0 <= k < |m.components| ::
              Extends(Restrict(a, Elems(m.components[k])), Restrict(hard, Elems(m.components[k])))
  {
    hide EdgesAreConflicts, IsolatedHaveNoConflict, PartsAreConnected, OrderedPairs, PairsSorted, ClausesOf, IdsMatch,
      SortedParts, DisjointParts;
    if forall k | 0 <= k < |m.components| ::
      Extends(Restrict(a, Elems(m.components[k])), Restrict(hard, Elems(m.components[k]))) {
      forall r | r in hard
        ensures a[r] == hard[r]
      {
        assert r in m.adjacency && InSome(m.components, r);
        var k :| 0 <= k < |m.components| && r in m.components[k];
        assert Extends(Restrict(a, Elems(m.components[k])), Restrict(hard, Elems(m.components[k])));
        assert r in Restrict(hard, Elems(m.components[k]));
      }
    }
  }

  lemma {:induction false} TotalCongruent(robots: seq<RobotId>, x: set<RobotId>, y: set<RobotId>, w: Weights)
    requires Weighted(robots, w) && forall r | r in robots :: r in x <==> r in y
    ensures Total(robots, x, w) == Total(robots, y, w)
  {
    if robots != [] {
      TotalCongruent(robots[1..], x, y, w);
    }
  }

  lemma {:induction false} PartsTotalMonotone(parts: seq<seq<RobotId>>, x: set<RobotId>, y: set<RobotId>, w: Weights)
    requires forall k | 0 <= k < |parts| :: Weighted(parts[k], w)
    requires forall k | 0 <= k < |parts| :: Total(parts[k], x, w) <= Total(parts[k], y, w)
    ensures PartsTotal(parts, x, w) <= PartsTotal(parts, y, w)
  {
    if parts != [] {
      PartsTotalMonotone(parts[1..], x, y, w);
    }
  }

  lemma {:induction false} PartsTotalDiffersAt(
    parts: seq<seq<RobotId>>, k: nat, x: set<RobotId>, y: set<RobotId>, w: Weights
  )
    requires forall j | 0 <= j < |parts| :: Weighted(parts[j], w)
    requires k < |parts| && forall j | 0 <= j < |parts| && j != k :: Total(parts[j], x, w) == Total(parts[j], y, w)
    ensures PartsTotal(parts, x, w) - PartsTotal(parts, y, w) == Total(parts[k], x, w) - Total(parts[k], y, w)
  {
    if k == 0 {
      PartsTotalMonotone(parts[1..], x, y, w);
      PartsTotalMonotone(parts[1..], y, x, w);
    } else {
      PartsTotalDiffersAt(parts[1..], k - 1, x, y, w);
    }
  }

  /** The value of a part depends only on the assignment restricted to it. */
  lemma ValueOfRestriction(part: seq<RobotId>, a: Assignment, b: Assignment, w: Weights)
    requires Weighted(part, w) && Restrict(a, Elems(part)) == Restrict(b, Elems(part))
    ensures Total(part, Resumed(a), w) == Total(part, Resumed(b), w)
  {
    forall r | r in part
      ensures r in Resumed(a) <==> r in Resumed(b)
    {
      assert r in Resumed(a) <==> r in Restrict(a, Elems(part)) && Restrict(a, Elems(part))[r] == Resume;
      assert r in Resumed(b) <==> r in Restrict(b, Elems(part)) && Restrict(b, Elems(part))[r] == Resume;
    }
    TotalCongruent(part, Resumed(a), Resumed(b), w);
  }

  lemma RestrictTwice(a: Assignment, ids: set<RobotId>)
    ensures Restrict(Restrict(a, ids), ids) == Restrict(a, ids)
  {
  }

  lemma RestrictionValue(part: seq<RobotId>, a: Assignment, w: Weights)
    requires Weighted(part, w)
    ensures Total(part, Resumed(a), w) == Total(part, Resumed(Restrict(a, Elems(part))), w)
  {
    RestrictTwice(a, Elems(part));
    ValueOfRestriction(part, a, Restrict(a, Elems(part)), w);
  }

  /** A component of a rival does no better than the component's maximiser. */
  lemma RivalComponent(m: ConflictModel, hard: Assignment, best: Assignment, b: Assignment, w: Weights, k: nat)
    requires WellFormedModel(m) && w.Keys == m.snapshots.Keys && hard.Keys <= m.snapshots.Keys
    requires k < |m.components| && Weighted(m.components[k], w) && FleetSafe(m, b) && Extends(b, hard)
    requires var ids := Elems(m.components[k]);
             IsComponentMaximiser(m, m.components[k], Restrict(hard, ids), Restrict(best, ids), w)
    ensures Total(m.components[k], Resumed(b), w) <= Total(m.components[k], Resumed(best), w)
  {
    hide WellFormedModel, Restrict, Resumed, ComponentSafe, Total, Extends, FleetSafe;
    var (c, ids) := (m.components[k], Elems(m.components[k]));
    assert b.Keys == m.snapshots.Keys by {
      FleetKeys(m, b);
    }
    RestrictionValue(c, b, w);
    RestrictionValue(c, best, w);
    SafeRestricts(m, b, k);
    HardDecomposes(m, b, hard);
  }

  lemma FleetKeys(m: ConflictModel, a: Assignment)
    requires FleetSafe(m, a)
    ensures a.Keys == m.snapshots.Keys
  {
  }

  /** Uniting per-component maximisers of the summed score gives a fleet-wide maximiser. */
  lemma MaximisersCompose(m: ConflictModel, hard: Assignment, best: Assignment, w: Weights)
    requires WellFormedModel(m) && best.Keys == m.snapshots.Keys == w.Keys && hard.Keys <= m.snapshots.Keys
    requires forall k | 0 <= k < |m.components| :: Weighted(m.components[k], w)
    requires forall k | 0 <= k < |m.components| ::
               var ids := Elems(m.components[k]);
               IsComponentMaximiser(m, m.components[k], Restrict(hard, ids), Restrict(best, ids), w)
    ensures Weighted(Ascending(m.snapshots.Keys), w)
    ensures IsFleetMaximiser(m, hard, best, w)
  {
    hide WellFormedModel, Restrict, Resumed, ComponentSafe, Total, PartsTotal, Ascending, FleetSafe, Extends;
    ObjectiveDecomposes(m, Resumed(best), w);
    SafetyDecomposes(m, best);
    HardDecomposes(m, best, hard);
    forall b | FleetSafe(m, b) && Extends(b, hard)
      ensures Total(Ascending(m.snapshots.Keys), Resumed(b), w) <= Total(Ascending(m.snapshots.Keys), Resumed(best), w)
    {
      ObjectiveDecomposes(m, Resumed(b), w);
      forall k | 0 <= k < |m.components|
        ensures Total(m.components[k], Resumed(b), w) <= Total(m.components[k], Resumed(best), w)
      {
        RivalComponent(m, hard, best, b, w, k);
      }
      PartsTotalMonotone(m.components, Resumed(b), Resumed(best), w);
    }
  }

  /** If every component's actions maximise its encoded objective under the hard actions, the fleet's
      actions maximise the summed final score under them: solving components separately loses nothing. */
  lemma EncodedMaximisersCompose(
    m: ConflictModel, hard: Assignment, best: Assignment, priorities: Priorities, w: Weights
  )
    requires WellFormedModel(m) && best.Keys == m.snapshots.Keys == w.Keys && hard.Keys <= m.snapshots.Keys
    requires forall r | r in w :: r in priorities && w[r] == priorities[r].finalScore
    requires forall k | 0 <= k < |m.components| :: Scored(m.components[k], priorities)
    requires forall k | 0 <= k < |m.components| ::
               var (c, ids) := (m.components[k], Elems(m.components[k]));
               IsComponentMaximiser(m, c, Restrict(hard, ids), Restrict(best, ids), Coefficients(c, priorities))
    ensures Weighted(Ascending(m.snapshots.Keys), w)
    ensures IsFleetMaximiser(m, hard, best, w)
  {
    hide WellFormedModel, IsFleetMaximiser, Restrict, Resumed, ComponentSafe, Total, Coefficients, Ascending, Extends;
    PartsAreWeighted(m, w);
    forall k | 0 <= k < |m.components|
      ensures var (c, ids) := (m.components[k], Elems(m.components[k]));
              IsComponentMaximiser(m, c, Restrict(hard, ids), Restrict(best, ids), w)
    {
      var (c, ids) := (m.components[k], Elems(m.components[k]));
      var own := Restrict(best, ids);
      assert forall r | r in c :: r in w;
      forall b | ComponentSafe(m, c, b) && Extends(b, Restrict(hard, ids))
        ensures Total(c, Resumed(b), w) <= Total(c, Resumed(own), w)
      {
        EncodedOrderRefinesScores(c, priorities, Resumed(b), Resumed(own), w);
      }
    }
    MaximisersCompose(m, hard, best, w);
  }

  lemma OverrideRestricts(a: Assignment, b: Assignment, ids: set<RobotId>)
    ensures b.Keys !! ids ==> Restrict(a + b, ids) == Restrict(a, ids)
    ensures b.Keys == ids ==> Restrict(a + b, ids) == b
  {
    if b.Keys !! ids {
      assert forall r | r in ids :: r !in b;
      assert Restrict(a + b, ids) == Restrict(a, ids);
    }
    if b.Keys == ids {
      assert Restrict(a + b, ids) == b;
    }
  }

  lemma ComponentWithinFleet(m: ConflictModel, k: nat)
    requires WellFormedModel(m) && k < |m.components|
    ensures Elems(m.components[k]) <= m.snapshots.Keys
  {
    forall r | r in m.components[k]
      ensures r in m.snapshots
    {
      MemberIsObserved(m, k, r);
    }
  }

  lemma DisjointComponents(m: ConflictModel, k: nat, j: nat)
    requires WellFormedModel(m) && k < |m.components| && j < |m.components|
    ensures j != k ==> Elems(m.components[k]) !! Elems(m.components[j])
  {
    hide EdgesAreConflicts, IsolatedHaveNoConflict, PartsAreConnected, OrderedPairs, PairsSorted, ClausesOf, IdsMatch;
    forall r | j != k && r in m.components[k]
      ensures r !in m.components[j]
    {
      assert DisjointParts(m.components);
    }
  }

  /** Overriding one component leaves every other component's restriction alone. */
  lemma ExchangeRestricts(m: ConflictModel, a: Assignment, k: nat, b: Assignment, j: nat)
    requires WellFormedModel(m) && a.Keys == m.snapshots.Keys && k < |m.components| && j < |m.components|
    requires b.Keys == Elems(m.components[k])
    ensures (a + b).Keys == m.snapshots.Keys
    ensures var ids := Elems(m.components[j]);
            Restrict(a + b, ids) == if j == k then b else Restrict(a, ids)
  {
    hide WellFormedModel, Restrict, Elems;
    ComponentWithinFleet(m, k);
    DisjointComponents(m, k, j);
    assert (a + b).Keys == a.Keys + b.Keys;
    OverrideRestricts(a, b, Elems(m.components[j]));
  }

  /** Exchanging one component of a safe fleet assignment for another safe choice keeps it safe. */
  lemma ExchangeIsSafe(m: ConflictModel, a: Assignment, k: nat, b: Assignment)
    requires WellFormedModel(m) && FleetSafe(m, a) && k < |m.components| && ComponentSafe(m, m.components[k], b)
    ensures FleetSafe(m, a + b)
  {
    ExchangeRestricts(m, a, k, b, k);
    SafetyDecomposes(m, a);
    SafetyDecomposes(m, a + b);
    forall j | 0 <= j < |m.components|
      ensures ComponentSafe(m, m.components[j], Restrict(a + b, Elems(m.components[j])))
    {
      ExchangeRestricts(m, a, k, b, j);
    }
  }

  lemma ExchangeKeepsHard(a: Assignment, hard: Assignment, b: Assignment, ids: set<RobotId>)
    requires Extends(a, hard) && b.Keys == ids && Extends(b, Restrict(hard, ids))
    ensures Extends(a + b, hard)
  {
    forall r | r in hard
      ensures r in a + b && (a + b)[r] == hard[r]
    {
      if r in ids {
        assert r in Restrict(hard, ids);
      }
    }
  }

  /** Conversely, a fleet-wide maximiser maximises every component. */
  lemma MaximiserDecomposes(m: ConflictModel, hard: Assignment, best: Assignment, w: Weights, k: nat)
    requires WellFormedModel(m) && w.Keys == m.snapshots.Keys && k < |m.components| && hard.Keys <= m.snapshots.Keys
    requires Weighted(Ascending(m.snapshots.Keys), w) && IsFleetMaximiser(m, hard, best, w)
    ensures Weighted(m.components[k], w)
    ensures var ids := Elems(m.components[k]);
            IsComponentMaximiser(m, m.components[k], Restrict(hard, ids), Restrict(best, ids), w)
  {
    hide WellFormedModel, Restrict, Resumed, ComponentSafe, Total, Ascending, Extends, FleetSafe;
    var (c, ids) := (m.components[k], Elems(m.components[k]));
    PartsAreWeighted(m, w);
    FleetKeys(m, best);
    SafeRestricts(m, best, k);
    HardDecomposes(m, best, hard);
    RestrictionValue(c, best, w);
    forall b | ComponentSafe(m, c, b) && Extends(b, Restrict(hard, ids))
      ensures Total(c, Resumed(b), w) <= Total(c, Resumed(Restrict(best, ids)), w)
    {
      ExchangeGain(m, hard, best, w, k, b);
    }
  }

  lemma RestrictWhole(a: Assignment)
    ensures Restrict(a, a.Keys) == a
  {
  }

  /** The exchanged component takes the new value and every other component keeps its own. */
  lemma ExchangeValues(m: ConflictModel, a: Assignment, w: Weights, k: nat, b: Assignment, j: nat)
    requires WellFormedModel(m) && a.Keys == m.snapshots.Keys && k < |m.components| && j < |m.components|
    requires b.Keys == Elems(m.components[k]) && Weighted(m.components[j], w)
    ensures Total(m.components[j], Resumed(a + b), w) == Total(m.components[j], Resumed(if j == k then b else a), w)
  {
    hide WellFormedModel, Restrict, Resumed, Total;
    ExchangeRestricts(m, a, k, b, j);
    RestrictWhole(b);
    ValueOfRestriction(m.components[j], a + b, if j == k then b else a, w);
  }

  lemma ComponentKeys(m: ConflictModel, c: seq<RobotId>, b: Assignment)
    requires ComponentSafe(m, c, b)
    ensures b.Keys == Elems(c)
  {
  }

  lemma ExchangeGain(m: ConflictModel, hard: Assignment, best: Assignment, w: Weights, k: nat, b: Assignment)
    requires WellFormedModel(m) && w.Keys == m.snapshots.Keys && k < |m.components| && hard.Keys <= m.snapshots.Keys
    requires Weighted(Ascending(m.snapshots.Keys), w) && IsFleetMaximiser(m, hard, best, w)
    requires ComponentSafe(m, m.components[k], b) && Extends(b, Restrict(hard, Elems(m.components[k])))
    ensures Weighted(m.components[k], w)
    ensures Total(m.components[k], Resumed(b), w) <= Total(m.components[k], Resumed(best), w)
  {
    hide WellFormedModel, Restrict, Resumed, ComponentSafe, Total, PartsTotal, Ascending, Extends, FleetSafe;
    PartsAreWeighted(m, w);
    FleetKeys(m, best);
    ComponentKeys(m, m.components[k], b);
    ExchangeIsSafe(m, best, k, b);
    ExchangeKeepsHard(best, hard, b, Elems(m.components[k]));
    assert FleetValue(m, best, w) >= FleetValue(m, best + b, w);
    FleetGain(m, best, w, k, b);
  }

  function FleetValue(m: ConflictModel, a: Assignment, w: Weights): int
    requires Weighted(Ascending(m.snapshots.Keys), w)
  {
    Total(Ascending(m.snapshots.Keys), Resumed(a), w)
  }

  /** Exchanging one component changes the fleet's value by that component's change. */
  lemma FleetGain(m: ConflictModel, best: Assignment, w: Weights, k: nat, b: Assignment)
    requires WellFormedModel(m) && w.Keys == best.Keys == m.snapshots.Keys && k < |m.components|
    requires b.Keys == Elems(m.components[k])
    ensures Weighted(Ascending(m.snapshots.Keys), w) && Weighted(m.components[k], w)
    ensures FleetValue(m, best + b, w) - FleetValue(m, best, w)
            == Total(m.components[k], Resumed(b), w) - Total(m.components[k], Resumed(best), w)
  {
    hide WellFormedModel, Resumed, Total, PartsTotal, Ascending, Weighted;
    PartsAreWeighted(m, w);
    ObjectiveDecomposes(m, Resumed(best), w);
    ObjectiveDecomposes(m, Resumed(best + b), w);
    forall j | 0 <= j < |m.components|
      ensures Total(m.components[j], Resumed(best + b), w)
              == Total(m.components[j], Resumed(if j == k then b else best), w)
    {
      ExchangeValues(m, best, w, k, b, j);
    }
    PartsTotalDiffersAt(m.components, k, Resumed(best + b), Resumed(best), w);
  }
}
