/** The bounded search of the component heuristic: unit propagation over two-literal no-goods and
    one greedy Resume-then-Pause pass without backtracking. */
module Search {
  import opened Basics
  import opened NoGoods

  /** Assign a value unless a different one is already present. */
  function AssignBinary(a: Assignment, robot: RobotId, value: Action): (r: (bool, Assignment))
    ensures r.0 <==> Extends(a[robot := value], a)
    ensures r.0 ==> r.1 == a[robot := value]
    ensures !r.0 ==> r.1 == a
  {
    if robot in a then (a[robot] == value, a) else (true, a[robot := value])
  }

  function UnassignedLiterals(c: Clause, a: Assignment): seq<Literal> {
    if c.first.robot in a then
      if c.second.robot in a then [] else [c.second]
    else
      if c.second.robot in a then [c.first] else [c.first, c.second]
  }

  /** What holds between the propagated input `base` and any later state `a` of the dictionary:
      only forced values were added. */
  ghost predicate Forced(a: Assignment, base: Assignment, clauses: seq<Clause>) {
    && Extends(a, base)
    && forall b :: Extends(b, base) && Closed(b, clauses) ==> Extends(b, a)
  }

  /** Robots of the component that have no value yet. */
  ghost function Free(a: Assignment, ids: set<RobotId>): set<RobotId> {
    ids - a.Keys
  }

  /** One pass over the clause list. */
  method Scan(a: Assignment, clauses: seq<Clause>, ghost base: Assignment, ghost ids: set<RobotId>)
    returns (ok: bool, result: Assignment, changed: bool, ghost visits: nat)
    requires Over(clauses, ids) && a.Keys <= ids
    requires Forced(a, base, clauses)
    ensures Forced(result, base, clauses) && result.Keys <= ids
    ensures !ok ==> !HasClosure(base, clauses)
    ensures ok && !changed ==> Closed(result, clauses)
    ensures if changed then Free(result, ids) < Free(a, ids) else result == a
    ensures visits <= |clauses|
  {
    result, changed, visits := a, false, 0;
    for i := 0 to |clauses|
      invariant Forced(result, base, clauses) && result.Keys <= ids
      invariant if changed then Free(result, ids) < Free(a, ids) else result == a
      invariant !changed ==> forall j | 0 <= j < i :: Settled(clauses[j], result)
      invariant visits == i
    {
      var clause := clauses[i];
      visits := visits + 1;
      if Satisfied(clause, result) {
        continue;
      }
      var unassigned := UnassignedLiterals(clause, result);
      if unassigned == [] {
        NoClosureThrough(clause, result, base, clauses);
        return false, result, changed, visits;
      }
      if |unassigned| == 1 {
        var literal := unassigned[0];
        var (fits, extended) := AssignBinary(result, literal.robot, Opposite(literal.forbidden));
        ForcedIn(clause, literal, result, base, clauses);
        if !fits {
          return false, result, changed, visits;
        }
        assert literal.robot in Free(result, ids) && literal.robot !in Free(extended, ids);
        result := extended;
        changed := true;
      }
    }
    ok := true;
  }

  /** Unit propagation until fixed point or contradiction. `scans` counts passes over the clause
      list and `visits` counts clause inspections. */
  method Propagate(assignment: Assignment, clauses: seq<Clause>, ghost ids: set<RobotId>)
    returns (ok: bool, result: Assignment, ghost scans: nat, ghost visits: nat)
    requires Over(clauses, ids) && assignment.Keys <= ids
    ensures ok <==> HasClosure(assignment, clauses)
    ensures ok ==> IsLeastClosure(result, assignment, clauses)
    ensures result.Keys <= ids
    ensures scans <= |Free(assignment, ids)| + 1
    ensures visits <= Times(scans, |clauses|)
  {
    ForcedInitially(assignment, clauses);
    hide Forced, HasClosure, IsLeastClosure, Closed, Over;
    result, scans, visits := assignment, 0, 0;
    var changed := true;
    while changed
      invariant Forced(result, assignment, clauses) && result.Keys <= ids
      invariant !changed ==> Closed(result, clauses)
      invariant scans + |Free(result, ids)| + (if changed then 1 else 0) <= |Free(assignment, ids)| + 1
      invariant visits <= Times(scans, |clauses|)
      decreases |Free(result, ids)|, changed
    {
      ghost var before := Free(result, ids);
      ghost var inspected;
      ok, result, changed, inspected := Scan(result, clauses, assignment, ids);
      scans, visits := scans + 1, visits + inspected;
      if changed {
        SmallerSet(Free(result, ids), before);
      }
      if !ok {
        return;
      }
    }
    ok := true;
    ClosureFound(result, assignment, clauses);
  }

  lemma ForcedInitially(a: Assignment, clauses: seq<Clause>)
    ensures Forced(a, a, clauses)
  {
  }

  lemma ClosureFound(a: Assignment, base: Assignment, clauses: seq<Clause>)
    requires Forced(a, base, clauses) && Closed(a, clauses)
    ensures HasClosure(base, clauses) && IsLeastClosure(a, base, clauses)
  {
  }

  lemma SmallerSet(a: set<RobotId>, b: set<RobotId>)
    requires a < b
    ensures |a| < |b|
  {
    assert b == a + (b - a);
    assert b - a != {};
  }

  /** A fully assigned, unsatisfied clause rules out every clause-closed extension. */
  lemma NoClosureThrough(c: Clause, a: Assignment, base: Assignment, clauses: seq<Clause>)
    requires c in clauses && !Satisfied(c, a) && c.first.robot in a && c.second.robot in a
    requires Forced(a, base, clauses)
    ensures !HasClosure(base, clauses)
  {
    forall b | Extends(b, base)
      ensures !Closed(b, clauses)
    {
      assert Closed(b, clauses) ==> Settled(c, b) && Extends(b, a);
    }
  }

  /** The value forced by a clause with one unassigned literal holds in every closed extension. */
  lemma ForcedIn(c: Clause, l: Literal, a: Assignment, base: Assignment, clauses: seq<Clause>)
    requires c in clauses && !Satisfied(c, a) && UnassignedLiterals(c, a) == [l]
    requires c.first.robot != c.second.robot
    requires Forced(a, base, clauses)
    ensures l.robot !in a && (l == c.first || l == c.second)
    ensures Forced(a[l.robot := Opposite(l.forbidden)], base, clauses)
  {
    var forced := Opposite(l.forbidden);
    assert l == if c.first.robot in a then c.second else c.first;
    forall b | Extends(b, base) && Closed(b, clauses)
      ensures Extends(b, a[l.robot := forced])
    {
      assert Settled(c, b) && Extends(b, a);
      assert l.robot in b && b[l.robot] == forced;
    }
  }

  /** Give one robot a value on a copy, and see whether propagation survives it. */
  method TryAssignment(
    assignment: Assignment, robot: RobotId, value: Action, clauses: seq<Clause>, ghost ids: set<RobotId>
  )
    returns (trial: Option<Assignment>, ghost visits: nat)
    requires Over(clauses, ids) && assignment.Keys <= ids && robot in ids
    ensures trial.Some? <==> Extends(assignment[robot := value], assignment)
                             && HasClosure(assignment[robot := value], clauses)
    ensures trial.Some? ==> trial.value.Keys <= ids
                            && IsLeastClosure(trial.value, assignment[robot := value], clauses)
    ensures visits <= Times(|ids| + 1, |clauses|)
  {
    var (fits, extended) := AssignBinary(assignment, robot, value);
    if !fits {
      return None, 0;
    }
    var ok, result;
    ghost var scans;
    ok, result, scans, visits := Propagate(extended, clauses, ids);
    RunCost(scans, extended, ids, |clauses|);
    trial := if ok then Some(result) else None;
  }

  lemma RunCost(scans: nat, a: Assignment, ids: set<RobotId>, clauses: nat)
    requires scans <= |Free(a, ids)| + 1
    ensures scans <= |ids| + 1 && Times(scans, clauses) <= Times(|ids| + 1, clauses)
  {
    assert ids == Free(a, ids) + (ids - Free(a, ids));
    TimesAdds(scans, |ids| + 1 - scans, clauses);
  }

  /** Why one pass suffices: the state of the greedy pass after the first `n` ranks. Every solution
      extending the seed either still extends the state or lost to it at some earlier rank. */
  ghost predicate GreedyState(
    a: Assignment, n: nat, ranked: seq<RobotId>, seed: Assignment, ids: set<RobotId>, clauses: seq<Clause>
  ) {
    && n <= |ranked|
    && Closed(a, clauses) && Extends(a, seed) && a.Keys <= ids
    && (forall j | 0 <= j < n :: ranked[j] in a)
    && (forall t :: Solves(t, ids, clauses) && Extends(t, seed) ==> Extends(t, a) || Beaten(t, a, n, ranked))
  }

  ghost predicate Beaten(t: Assignment, a: Assignment, n: nat, ranked: seq<RobotId>)
    requires n <= |ranked|
  {
    exists i | 0 <= i < n :: FirstDifference(ranked, a, t, i)
  }

  /** Adopting a propagated branch for rank `n` keeps the state, provided no surviving solution
      takes the other branch unless this one Resumes. */
  lemma Adopt(
    a: Assignment, next: Assignment, value: Action, n: nat, ranked: seq<RobotId>, seed: Assignment,
    ids: set<RobotId>, clauses: seq<Clause>
  )
    requires GreedyState(a, n, ranked, seed, ids, clauses) && n < |ranked| && ranked[n] !in a
    requires IsLeastClosure(next, a[ranked[n] := value], clauses) && next.Keys <= ids
    requires value == Pause ==>
      forall t :: Solves(t, ids, clauses) && Extends(t, a) ==> t[ranked[n]] == Pause
    requires ranked[n] in ids
    ensures GreedyState(next, n + 1, ranked, seed, ids, clauses)
  {
    var r := ranked[n];
    assert Extends(next, a);
    forall t | Solves(t, ids, clauses) && Extends(t, seed)
      ensures Extends(t, next) || Beaten(t, next, n + 1, ranked)
    {
      if Extends(t, a) {
        if t[r] == value {
          SolutionIsClosed(t, ids, clauses);
          assert Extends(t, a[r := value]);
        } else {
          assert FirstDifference(ranked, next, t, n);
        }
      } else {
        var i :| 0 <= i < n && FirstDifference(ranked, a, t, i);
        assert FirstDifference(ranked, next, t, i);
      }
    }
  }

  lemma Skip(a: Assignment, n: nat, ranked: seq<RobotId>, seed: Assignment, ids: set<RobotId>, clauses: seq<Clause>)
    requires GreedyState(a, n, ranked, seed, ids, clauses) && n < |ranked| && ranked[n] in a
    ensures GreedyState(a, n + 1, ranked, seed, ids, clauses)
  {
    forall t | Solves(t, ids, clauses) && Extends(t, seed)
      ensures Extends(t, a) || Beaten(t, a, n + 1, ranked)
    {
      if !Extends(t, a) {
        var i :| 0 <= i < n && FirstDifference(ranked, a, t, i);
        assert FirstDifference(ranked, a, t, i);
      }
    }
  }

  /** A Resume without a clause-closed extension belongs to no solution. */
  lemma ResumeRefuted(a: Assignment, r: RobotId, ids: set<RobotId>, clauses: seq<Clause>)
    requires r in ids && r !in a && !HasClosure(a[r := Resume], clauses)
    ensures forall t :: Solves(t, ids, clauses) && Extends(t, a) ==> t[r] == Pause
  {
    forall t | Solves(t, ids, clauses) && Extends(t, a)
      ensures t[r] == Pause
    {
      SolutionIsClosed(t, ids, clauses);
      assert !Extends(t, a[r := Resume]);
    }
  }

  /** As long as the clauses have any solution, one branch of every open robot survives
      propagation: the solution can be overlaid with the clause-closed state. */
  lemma SomeBranchSurvives(a: Assignment, r: RobotId, s: Assignment, ids: set<RobotId>, clauses: seq<Clause>)
    requires Closed(a, clauses) && a.Keys <= ids && r in ids && r !in a
    requires Solves(s, ids, clauses)
    ensures HasClosure(a[r := Resume], clauses) || HasClosure(a[r := Pause], clauses)
  {
    ClosedOverlay(s, a, ids, clauses);
    var t := s + a;
    SolutionIsClosed(t, ids, clauses);
    assert t[r] == Resume || t[r] == Pause;
    assert Extends(t, a[r := t[r]]);
  }

  lemma Refuted(a: Assignment, r: RobotId, seed: Assignment, ids: set<RobotId>, clauses: seq<Clause>)
    requires Closed(a, clauses) && a.Keys <= ids && r in ids && r !in a
    requires !HasClosure(a[r := Resume], clauses) && !HasClosure(a[r := Pause], clauses)
    ensures !Satisfiable(seed, ids, clauses)
  {
    if Satisfiable(seed, ids, clauses) {
      var s :| Solves(s, ids, clauses) && Extends(s, seed);
      SomeBranchSurvives(a, r, s, ids, clauses);
    }
  }

  lemma PropagatedSeed(a: Assignment, ranked: seq<RobotId>, seed: Assignment, ids: set<RobotId>, clauses: seq<Clause>)
    requires IsLeastClosure(a, seed, clauses) && a.Keys <= ids
    ensures GreedyState(a, 0, ranked, seed, ids, clauses)
  {
    forall t | Solves(t, ids, clauses) && Extends(t, seed)
      ensures Extends(t, a)
    {
      PropagatedValuesAreForced(a, seed, t, ids, clauses);
    }
  }

  lemma SatisfiableSeedPropagates(seed: Assignment, ids: set<RobotId>, clauses: seq<Clause>)
    ensures Satisfiable(seed, ids, clauses) ==> HasClosure(seed, clauses)
  {
    if Satisfiable(seed, ids, clauses) {
      var s :| Solves(s, ids, clauses) && Extends(s, seed);
      SolutionIsClosed(s, ids, clauses);
    }
  }

  lemma Finished(a: Assignment, ranked: seq<RobotId>, seed: Assignment, ids: set<RobotId>, clauses: seq<Clause>)
    requires GreedyState(a, |ranked|, ranked, seed, ids, clauses)
    requires Elems(ranked) == ids && Over(clauses, ids)
    ensures IsGreatest(a, ranked, seed, ids, clauses)
    ensures Satisfiable(seed, ids, clauses)
  {
    assert forall r | r in ids :: r in ranked && r in a;
    assert a.Keys == ids;
    assert Solves(a, ids, clauses) by {
      forall c | c in clauses
        ensures Satisfied(c, a)
      {
        assert Settled(c, a);
      }
    }
    forall t | Solves(t, ids, clauses) && Extends(t, seed)
      ensures t == a || Prefers(ranked, a, t)
    {
      if Extends(t, a) {
        assert t == a;
      } else {
        var i :| 0 <= i < |ranked| && FirstDifference(ranked, a, t, i);
        assert Prefers(ranked, a, t);
      }
    }
  }

  /** Rank `n` of the greedy pass: keep a propagated value, else try Resume, else Pause. */
  method DecideRobot(
    assignment: Assignment, n: nat, ranked: seq<RobotId>, clauses: seq<Clause>,
    ghost seed: Assignment, ghost ids: set<RobotId>
  )
    returns (next: Option<Assignment>, ghost visits: nat)
    requires Over(clauses, ids) && n < |ranked| && ranked[n] in ids
    requires GreedyState(assignment, n, ranked, seed, ids, clauses)
    ensures next.Some? ==> GreedyState(next.value, n + 1, ranked, seed, ids, clauses)
    ensures next.None? ==> !Satisfiable(seed, ids, clauses)
    ensures visits <= Times(2, Times(|ids| + 1, |clauses|))
  {
    var robot := ranked[n];
    if robot in assignment {
      Skip(assignment, n, ranked, seed, ids, clauses);
      return Some(assignment), 0;
    }
    next, visits := TryAssignment(assignment, robot, Resume, clauses, ids);
    if next.Some? {
      Adopt(assignment, next.value, Resume, n, ranked, seed, ids, clauses);
      return;
    }
    ResumeRefuted(assignment, robot, ids, clauses);
    ghost var more;
    next, more := TryAssignment(assignment, robot, Pause, clauses, ids);
    visits := visits + more;
    if next.None? {
      Refuted(assignment, robot, seed, ids, clauses);
      return;
    }
    Adopt(assignment, next.value, Pause, n, ranked, seed, ids, clauses);
  }

  /** One greedy pass in rank order without backtracking. It is a complete decision procedure, and
      its result is the greatest solution in the rank order. */
  method GreedyPass(ranked: seq<RobotId>, seed: Assignment, clauses: seq<Clause>)
    returns (found: Option<Assignment>, ghost visits: nat)
    requires Over(clauses, Elems(ranked)) && seed.Keys <= Elems(ranked)
    ensures found.Some? <==> Satisfiable(seed, Elems(ranked), clauses)
    ensures found.Some? ==> IsGreatest(found.value, ranked, seed, Elems(ranked), clauses)
    ensures visits <= VisitLimit(|ranked|, |clauses|)
  {
    hide GreedyState, HasClosure, IsLeastClosure, Satisfiable, IsGreatest, Over;
    ghost var ids := Elems(ranked);
    ghost var perRun := Times(|ids| + 1, |clauses|);
    ghost var scans;
    var ok, assignment;
    ok, assignment, scans, visits := Propagate(seed, clauses, ids);
    RunCost(scans, seed, ids, |clauses|);
    if !ok {
      SatisfiableSeedPropagates(seed, ids, clauses);
      TotalCost(visits, 0, ranked, |clauses|);
      return None, visits;
    }
    PropagatedSeed(assignment, ranked, seed, ids, clauses);
    for n := 0 to |ranked|
      invariant GreedyState(assignment, n, ranked, seed, ids, clauses)
      invariant visits <= Times(n, Times(2, perRun)) + perRun
    {
      ghost var spent;
      found, spent := DecideRobot(assignment, n, ranked, clauses, seed, ids);
      visits := visits + spent;
      if found.None? {
        TotalCost(visits, n + 1, ranked, |clauses|);
        return;
      }
      assignment := found.value;
    }
    Finished(assignment, ranked, seed, ids, clauses);
    TotalCost(visits, |ranked|, ranked, |clauses|);
    found := Some(assignment);
  }

  lemma TotalCost(visits: nat, robots: nat, ranked: seq<RobotId>, clauses: nat)
    requires robots <= |ranked|
    requires var perRun := Times(|Elems(ranked)| + 1, clauses);
             visits <= Times(robots, Times(2, perRun)) + perRun
    ensures visits <= VisitLimit(|ranked|, clauses)
  {
    var k, r := |ranked|, |Elems(ranked)|;
    DistinctCardinality(ranked);
    var perRun, limit := Times(r + 1, clauses), Times(k + 1, clauses);
    TimesAdds(r + 1, k - r, clauses);
    TimesAdds(robots, k - robots, Times(2, perRun));
    TimesIsProduct(k, Times(2, perRun));
    TimesIsProduct(2, perRun);
    assert visits <= k * (2 * perRun) + perRun;
    Bound(k, perRun, limit);
    TimesIsProduct(k + 1, clauses);
    VisitLimitIsProduct(k, clauses);
  }

  lemma Bound(k: nat, m: nat, limit: nat)
    requires m <= limit
    ensures k * (2 * m) + m <= (2 * k + 1) * limit
  {
    assert k * (2 * m) + m == (2 * k + 1) * m;
    assert (2 * k + 1) * m <= (2 * k + 1) * limit;
  }

  /** Clause inspections of a greedy pass: at most `2k + 1` propagation runs of at most `k + 1`
      scans of all clauses. */
  ghost function VisitLimit(robots: nat, clauses: nat): nat {
    Times(Times(2 * robots + 1, robots + 1), clauses)
  }

  lemma VisitLimitIsProduct(robots: nat, clauses: nat)
    ensures VisitLimit(robots, clauses) == (2 * robots + 1) * ((robots + 1) * clauses)
  {
    var runs, scans := 2 * robots + 1, robots + 1;
    TimesIsProduct(runs, scans);
    TimesIsProduct(runs * scans, clauses);
    assert runs * scans * clauses == runs * (scans * clauses);
  }

  /** `n` times `k` by repeated addition, which keeps the cost accounting linear. */
  ghost function Times(n: nat, k: nat): nat {
    if n == 0 then 0 else Times(n - 1, k) + k
  }

  lemma {:induction false} TimesIsProduct(n: nat, k: nat)
    ensures Times(n, k) == n * k
  {
    if n > 0 {
      TimesIsProduct(n - 1, k);
    }
  }

  lemma {:induction false} TimesAdds(m: nat, n: nat, k: nat)
    ensures Times(m + n, k) == Times(m, k) + Times(n, k)
  {
    if n > 0 {
      TimesAdds(m, n - 1, k);
    }
  }
}
