/** The deterministic component heuristic: greedy propagation with a bounded repair pass. */
module Heuristic {
  import opened Basics
  import opened Conflicts
  import opened Models
  import opened NoGoods
  import opened Objective
  import opened Optimiser
  import opened Repair
  import opened Search

  datatype DecisionSource = CpSat | Greedy | Repair | FailSafe

  /** What the heuristic found for a component, or that it found nothing. */
  datatype HeuristicResult = HeuristicResult(
    feasible: bool,
    decisions: Assignment,
    source: DecisionSource,
    progressMade: bool
  ) {
    /** What construction enforces. */
    predicate Valid() {
      && (feasible <==> decisions != map[])
      && (progressMade ==> feasible)
      && (progressMade <==> source != FailSafe)
    }
  }

  ghost predicate IsCompletable(ids: set<RobotId>, pairs: seq<Compatibility>, hard: Assignment) {
    exists a :: SafeCompletion(a, ids, pairs, hard)
  }

  /** Some safe completion lets at least one robot move. */
  ghost predicate CanProgress(ids: set<RobotId>, pairs: seq<Compatibility>, hard: Assignment) {
    exists a :: SafeCompletion(a, ids, pairs, hard) && HasResume(a)
  }

  /** The safe completion that Resumes greedily in rank order. */
  ghost predicate IsBestCompletion(
    a: Assignment, ranked: seq<RobotId>, ids: set<RobotId>, pairs: seq<Compatibility>, hard: Assignment
  ) {
    && SafeCompletion(a, ids, pairs, hard)
    && forall b :: SafeCompletion(b, ids, pairs, hard) ==> b == a || Prefers(ranked, a, b)
  }

  /** Descending objective coefficient, then ascending identifier. */
  function Ranking(ids: set<RobotId>, priorities: Priorities): (ranked: seq<RobotId>)
    requires Scored(Ascending(ids), priorities)
    ensures Elems(ranked) == ids && |ranked| == |ids|
  {
    var coefficients := Coefficients(Ascending(ids), priorities);
    Sort(ids, r => (if r in coefficients then -coefficients[r] else 0, 0))
  }

  /** Repair candidates: most clearance opportunities first, then by rank. */
  function RepairCandidates(ids: set<RobotId>, ranked: seq<RobotId>, priorities: Priorities, limit: int): (c: seq<RobotId>)
    ensures forall r | r in c :: r in ids
  {
    var key: SortKey := r => (
      if r in priorities then -priorities[r].clearanceConflictCount else 0,
      if r in ranked then IndexOf(ranked, r) else 0
    );
    var ordered := Sort(ids, key);
    if 0 <= limit < |ordered| then ordered[..limit] else ordered
  }

  /** Try one escape robot at a time together with whatever unit propagation forces. */
  method RepairPass(
    component: seq<RobotId>, candidates: seq<RobotId>, pairs: seq<Compatibility>, hard: Assignment
  )
    returns (r: Result<Option<Assignment>>)
    requires var ids := Elems(component);
             OrderedPairs(pairs, ids) && hard.Keys <= ids && forall c | c in candidates :: c in ids
    ensures r.Ok?
    ensures r.value.Some? ==> SafeCompletion(r.value.value, Elems(component), pairs, hard) && HasResume(r.value.value)
    ensures IsRepair(hard, candidates, Elems(component), ClausesOf(pairs), r.value)
  {
    hide Over, HasClosure, NoneEscapes, Escapes, IsEscapeAt, Solves, SafeCompletion, Accepts, Closed;
    var ids, clauses := Elems(component), ClausesOf(pairs);
    ClausesAreOver(pairs, ids);
    var ok, base, _, _ := Propagate(hard, clauses, ids);
    if !ok {
      return Ok(None);
    }
    NoneTriedYet(base, candidates, ids, clauses);
    for n := 0 to |candidates|
      invariant NoneEscapes(base, candidates, n, ids, clauses)
    {
      var escape := candidates[n];
      if escape in base && base[escape] == Pause {
        PausedDoesNotEscape(base, escape, ids, clauses);
        OneMoreDoesNotEscape(base, candidates, n, ids, clauses);
        continue;
      }
      var decisions := TryEscape(base, escape, ids, clauses);
      if decisions.None? {
        OneMoreDoesNotEscape(base, candidates, n, ids, clauses);
        continue;
      }
      SolutionsAreSafeCompletions(decisions.value, ids, pairs, hard);
      AcceptsSafeCompletions(component, decisions.value, pairs, hard);
      if !Accepts(component, decisions.value, pairs, hard) {
        return Raised(UnsafeResult);
      }
      EscapeFound(base, candidates, n, ids, clauses, decisions.value);
      RepairFound(hard, base, candidates, ids, clauses, decisions);
      return Ok(decisions);
    }
    RepairFound(hard, base, candidates, ids, clauses, None);
    r := Ok(None);
  }

  /** Nothing if the hard actions contradict themselves; otherwise the first escape from what they force. */
  ghost predicate IsRepair(
    hard: Assignment, candidates: seq<RobotId>, ids: set<RobotId>, clauses: seq<Clause>, outcome: Option<Assignment>
  ) {
    if HasClosure(hard, clauses) then
      forall base | IsLeastClosure(base, hard, clauses) :: IsFirstEscape(base, candidates, ids, clauses, outcome)
    else
      outcome == None
  }

  lemma PausedDoesNotEscape(base: Assignment, escape: RobotId, ids: set<RobotId>, clauses: seq<Clause>)
    requires escape in base && base[escape] == Pause
    ensures forall a :: !Escapes(base, escape, ids, clauses, a)
  {
    assert base[escape := Resume][escape] == Resume;
  }

  lemma EscapeFound(
    base: Assignment, candidates: seq<RobotId>, n: nat, ids: set<RobotId>, clauses: seq<Clause>, a: Assignment
  )
    requires n < |candidates| && NoneEscapes(base, candidates, n, ids, clauses)
    requires Escapes(base, candidates[n], ids, clauses, a)
    ensures IsFirstEscape(base, candidates, ids, clauses, Some(a))
  {
    assert IsEscapeAt(base, candidates, n, ids, clauses, a);
  }

  lemma NoneTriedYet(base: Assignment, candidates: seq<RobotId>, ids: set<RobotId>, clauses: seq<Clause>)
    ensures NoneEscapes(base, candidates, 0, ids, clauses)
  {
  }

  lemma RepairFound(
    hard: Assignment, base: Assignment, candidates: seq<RobotId>, ids: set<RobotId>, clauses: seq<Clause>,
    outcome: Option<Assignment>
  )
    requires HasClosure(hard, clauses) && IsLeastClosure(base, hard, clauses)
    requires IsFirstEscape(base, candidates, ids, clauses, outcome)
    ensures IsRepair(hard, candidates, ids, clauses, outcome)
  {
    hide HasClosure, IsLeastClosure, IsFirstEscape;
    forall other | IsLeastClosure(other, hard, clauses)
      ensures other == base
    {
      LeastClosureIsUnique(hard, clauses, other, base);
    }
  }

  /** What `Solve` returns on a valid call: feasibility and progress are decided exactly, and a
      feasible result is the best safe completion for the ranking. */
  ghost predicate DecidesExactly(
    h: HeuristicResult, ids: set<RobotId>, pairs: seq<Compatibility>, hard: Assignment, priorities: Priorities
  )
    requires Scored(Ascending(ids), priorities)
  {
    && h.Valid()
    && (h.feasible <==> IsCompletable(ids, pairs, hard))
    && (h.progressMade <==> CanProgress(ids, pairs, hard))
    && (h.feasible ==> IsBestCompletion(h.decisions, Ranking(ids, priorities), ids, pairs, hard))
    && (h.progressMade <==> h.feasible && HasResume(h.decisions))
    && h.source == if h.progressMade then Greedy else FailSafe
  }

  lemma DecidedProgress(
    h: HeuristicResult, ids: set<RobotId>, pairs: seq<Compatibility>, hard: Assignment, priorities: Priorities
  )
    requires Scored(Ascending(ids), priorities) && DecidesExactly(h, ids, pairs, hard, priorities)
    ensures h.progressMade <==> CanProgress(ids, pairs, hard)
    ensures h.feasible <==> IsCompletable(ids, pairs, hard)
    ensures h.feasible ==> SafeCompletion(h.decisions, ids, pairs, hard)
    ensures h.progressMade <==> h.feasible && HasResume(h.decisions)
  {
  }

  lemma DecidedBest(
    h: HeuristicResult, ids: set<RobotId>, pairs: seq<Compatibility>, hard: Assignment, priorities: Priorities
  )
    requires Scored(Ascending(ids), priorities) && DecidesExactly(h, ids, pairs, hard, priorities)
    ensures h.feasible ==> IsBestCompletion(h.decisions, Ranking(ids, priorities), ids, pairs, hard)
  {
  }

  lemma GreatestIsBest(
    found: Option<Assignment>, ranked: seq<RobotId>, ids: set<RobotId>, pairs: seq<Compatibility>, hard: Assignment
  )
    requires OrderedPairs(pairs, ids)
    requires found.Some? <==> Satisfiable(hard, ids, ClausesOf(pairs))
    requires found.Some? ==> IsGreatest(found.value, ranked, hard, ids, ClausesOf(pairs))
    ensures found.Some? <==> IsCompletable(ids, pairs, hard)
    ensures found.Some? ==> IsBestCompletion(found.value, ranked, ids, pairs, hard)
  {
    forall a
      ensures Solves(a, ids, ClausesOf(pairs)) && Extends(a, hard) <==> SafeCompletion(a, ids, pairs, hard)
    {
      SolutionsAreSafeCompletions(a, ids, pairs, hard);
    }
    if IsCompletable(ids, pairs, hard) {
      var a :| SafeCompletion(a, ids, pairs, hard);
      assert Solves(a, ids, ClausesOf(pairs)) && Extends(a, hard);
    }
    if Satisfiable(hard, ids, ClausesOf(pairs)) {
      var a :| Solves(a, ids, ClausesOf(pairs)) && Extends(a, hard);
      assert SafeCompletion(a, ids, pairs, hard);
    }
  }

  lemma PausedPrefersNothing(ranked: seq<RobotId>, s: Assignment, t: Assignment)
    requires !HasResume(s)
    ensures !Prefers(ranked, s, t)
  {
  }

  /** An all-Pause best completion is the only completion, so progress is impossible. */
  lemma AllPauseMeansNoProgress(
    best: Assignment, ranked: seq<RobotId>, ids: set<RobotId>, pairs: seq<Compatibility>, hard: Assignment
  )
    requires IsBestCompletion(best, ranked, ids, pairs, hard) && !HasResume(best)
    ensures !CanProgress(ids, pairs, hard)
    ensures best == PauseAll(ids)
    ensures forall a :: SafeCompletion(a, ids, pairs, hard) ==> a == best
  {
    forall a | SafeCompletion(a, ids, pairs, hard)
      ensures a == best
    {
      PausedPrefersNothing(ranked, best, a);
    }
    assert best == PauseAll(ids);
  }

  lemma ProgressDecided(
    best: Assignment, ids: set<RobotId>, pairs: seq<Compatibility>, hard: Assignment, priorities: Priorities
  )
    requires Scored(Ascending(ids), priorities)
    requires IsBestCompletion(best, Ranking(ids, priorities), ids, pairs, hard) && HasResume(best)
    ensures DecidesExactly(HeuristicResult(true, best, Greedy, true), ids, pairs, hard, priorities)
  {
    hide Ranking, Scored, Prefers, PairsSafe, Extends;
    var r :| r in best && best[r] == Resume;
    assert best != map[];
    assert IsCompletable(ids, pairs, hard) && CanProgress(ids, pairs, hard);
  }

  lemma NoProgressDecided(
    best: Assignment, ids: set<RobotId>, pairs: seq<Compatibility>, hard: Assignment, priorities: Priorities
  )
    requires Scored(Ascending(ids), priorities) && ids != {}
    requires IsBestCompletion(best, Ranking(ids, priorities), ids, pairs, hard) && !HasResume(best)
    ensures best == PauseAll(ids) && AllPause(hard) && !CanProgress(ids, pairs, hard)
    ensures DecidesExactly(HeuristicResult(true, best, FailSafe, false), ids, pairs, hard, priorities)
  {
    AllPauseMeansNoProgress(best, Ranking(ids, priorities), ids, pairs, hard);
    PausedSeed(best, ids, pairs, hard);
    hide SafeCompletion, Scored, Sort;
    assert SafeCompletion(best, ids, pairs, hard);
  }

  lemma PausedSeed(a: Assignment, ids: set<RobotId>, pairs: seq<Compatibility>, hard: Assignment)
    requires SafeCompletion(a, ids, pairs, hard) && !HasResume(a) && ids != {}
    ensures AllPause(hard) && a != map[]
  {
    assert a.Keys == ids;
  }

  lemma InfeasibleDecided(ids: set<RobotId>, pairs: seq<Compatibility>, hard: Assignment, priorities: Priorities)
    requires Scored(Ascending(ids), priorities) && !IsCompletable(ids, pairs, hard)
    ensures DecidesExactly(HeuristicResult(false, map[], FailSafe, false), ids, pairs, hard, priorities)
  {
  }

  /** Greedy pass, then repair pass, then the all-Pause fallback. */
  method SolveComponent(
    cfg: Config, ordered: seq<RobotId>, pairs: seq<Compatibility>, priorities: Priorities, hard: Assignment
  )
    returns (r: Result<HeuristicResult>)
    requires ordered != [] && Ascending(Elems(ordered)) == ordered
    requires Scored(ordered, priorities) && OrderedPairs(pairs, Elems(ordered)) && hard.Keys <= Elems(ordered)
    ensures r.Ok? && DecidesExactly(r.value, Elems(ordered), pairs, hard, priorities)
  {
    var ids := Elems(ordered);
    var ranked := Ranking(ids, priorities);
    ClausesAreOver(pairs, ids);
    assert ordered[0] in ids;
    var greedy, _ := GreedyPass(ranked, hard, ClausesOf(pairs));
    GreatestIsBest(greedy, ranked, ids, pairs, hard);
    if greedy.None? {
      InfeasibleDecided(ids, pairs, hard, priorities);
    } else {
      AcceptsSafeCompletions(ordered, greedy.value, pairs, hard);
      if !Accepts(ordered, greedy.value, pairs, hard) {
        return Raised(UnsafeResult);
      }
      if HasResume(greedy.value) {
        ProgressDecided(greedy.value, ids, pairs, hard, priorities);
        return Ok(HeuristicResult(true, greedy.value, Greedy, true));
      }
      NoProgressDecided(greedy.value, ids, pairs, hard, priorities);
    }
    r := RepairOrPause(cfg, ordered, ranked, pairs, priorities, hard, greedy);
  }

  /** What `solve` does when the greedy pass found no progress. The repair pass can find none either,
      whatever its candidate limit. */
  method RepairOrPause(
    cfg: Config, ordered: seq<RobotId>, ranked: seq<RobotId>, pairs: seq<Compatibility>,
    priorities: Priorities, hard: Assignment, ghost greedy: Option<Assignment>
  )
    returns (r: Result<HeuristicResult>)
    requires OrderedPairs(pairs, Elems(ordered)) && hard.Keys <= Elems(ordered)
    requires !CanProgress(Elems(ordered), pairs, hard)
    requires greedy.Some? ==>
      greedy.value == PauseAll(Elems(ordered)) && AllPause(hard)
      && SafeCompletion(greedy.value, Elems(ordered), pairs, hard)
    requires greedy.None? ==> !IsCompletable(Elems(ordered), pairs, hard)
    ensures r == Ok(
      if greedy.Some? then HeuristicResult(true, PauseAll(Elems(ordered)), FailSafe, false)
      else HeuristicResult(false, map[], FailSafe, false)
    )
  {
    var ids := Elems(ordered);
    var candidates := RepairCandidates(ids, ranked, priorities, cfg.maximumRepairCandidates);
    var repaired := RepairPass(ordered, candidates, pairs, hard);
    if repaired.Raised? {
      return Raised(UnsafeResult);
    }
    var escape := repaired.value;
    if escape.Some? {
      return Ok(HeuristicResult(true, escape.GetOr(map[]), Repair, true));
    }
    AcceptsSafeCompletions(ordered, PauseAll(ids), pairs, hard);
    if AllPause(hard) && Accepts(ordered, PauseAll(ids), pairs, hard) {
      return Ok(HeuristicResult(true, PauseAll(ids), FailSafe, false));
    }
    r := Ok(HeuristicResult(false, map[], FailSafe, false));
  }

  lemma OrderedAgain(component: seq<RobotId>)
    requires component != []
    ensures var ordered := Ascending(Elems(component));
            ordered != [] && Elems(ordered) == Elems(component)
  {
    assert component[0] in Elems(component);
  }

  /** Produce a safe assignment or an explicit fail-safe result. */
  method Solve(
    cfg: Config, component: seq<RobotId>, m: ConflictModel, priorities: Priorities, hard: Assignment
  )
    returns (r: Result<HeuristicResult>)
    requires OrderedPairs(m.pairs, m.snapshots.Keys)
    ensures r == Raised(InvalidInput) <==> !ValidCall(component, m, priorities, hard)
    ensures r == Raised(ObjectiveOverflow) <==>
              ValidCall(component, m, priorities, hard) && OverflowsOn(Elems(component), priorities)
    ensures r.Raised? ==> r.error == InvalidInput || r.error == ObjectiveOverflow
    ensures r.Ok? ==>
      var ids := Elems(component);
      Scored(Ascending(ids), priorities)
      && DecidesExactly(r.value, ids, ComponentPairs(ids, m.pairs), hard, priorities)
  {
    if !ValidCall(component, m, priorities, hard) {
      return Raised(InvalidInput);
    }
    ValidCallIsScored(component, m, priorities, hard);
    var ids := Elems(component);
    var objective := BuildObjectiveEncoding(ids, priorities);
    if objective.Raised? {
      return Raised(objective.error);
    }
    var ordered := Ascending(ids);
    OrderedAgain(component);
    r := SolveComponent(cfg, ordered, ComponentPairs(ids, m.pairs), priorities, hard);
  }
}
