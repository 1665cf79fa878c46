/** Independent validation of component decisions, and the exact solver as an untrusted oracle. */
module Optimiser {
  import opened Basics
  import opened Conflicts
  import opened Models
  import opened NoGoods
  import opened Objective

  /** What both component solvers demand of their arguments; anything else is a ValueError. */
  predicate ValidCall(component: seq<RobotId>, m: ConflictModel, priorities: Priorities, hard: Assignment) {
    && component != []
    && Distinct(component)
    && (forall r | r in component :: r in m.snapshots && r in priorities && priorities[r].robotId == r)
    && forall r | r in hard :: r in component
  }

  // ---------------------------------------------------------------- validation

  /** Every literal of the no-good is false. */
  predicate IsViolatedBy(c: Clause, a: Assignment) {
    && c.first.robot in a && a[c.first.robot] == c.first.forbidden
    && c.second.robot in a && a[c.second.robot] == c.second.forbidden
  }

  /** `validate_component_decisions` accepts: complete, no no-good violated, hard actions kept. */
  predicate Accepts(component: seq<RobotId>, decisions: Assignment, pairs: seq<Compatibility>, hard: Assignment) {
    && decisions.Keys == Elems(component)
    && (forall c | c in ClausesOf(pairs) :: !IsViolatedBy(c, decisions))
    && forall r | r in hard :: r in decisions && decisions[r] == hard[r]
  }

  /** A complete assignment of the component's robots with every pair safe and the hard actions kept. */
  predicate SafeCompletion(a: Assignment, ids: set<RobotId>, pairs: seq<Compatibility>, hard: Assignment) {
    a.Keys == ids && PairsSafe(pairs, a) && Extends(a, hard)
  }

  /** The validator accepts exactly the safe completions. */
  lemma AcceptsSafeCompletions(
    component: seq<RobotId>, decisions: Assignment, pairs: seq<Compatibility>, hard: Assignment
  )
    requires OrderedPairs(pairs, Elems(component))
    ensures Accepts(component, decisions, pairs, hard) <==> SafeCompletion(decisions, Elems(component), pairs, hard)
  {
    var ids := Elems(component);
    if decisions.Keys == ids {
      ClausesAreOver(pairs, ids);
      ClausesEncodePairs(pairs, decisions, ids);
      forall c | c in ClausesOf(pairs)
        ensures IsViolatedBy(c, decisions) <==> !Satisfied(c, decisions)
      {
      }
    }
  }

  /** Solutions of the clause encoding are the safe completions. */
  lemma SolutionsAreSafeCompletions(a: Assignment, ids: set<RobotId>, pairs: seq<Compatibility>, hard: Assignment)
    requires OrderedPairs(pairs, ids)
    ensures Solves(a, ids, ClausesOf(pairs)) && Extends(a, hard) <==> SafeCompletion(a, ids, pairs, hard)
  {
    if a.Keys == ids {
      ClausesEncodePairs(pairs, a, ids);
    }
  }

  // ---------------------------------------------------------------- the solver oracle

  /** The model handed to the solver. */
  datatype SolverCall = SolverCall(
    component: seq<RobotId>,
    noGoods: seq<Clause>,
    hard: Assignment,
    coefficients: Weights
  )

  /** The solver: no incumbent, or the set of robots whose variable is 1. Nothing is assumed of it. */
  type Solver = SolverCall -> Option<set<RobotId>>

  function Decode(ids: set<RobotId>, resumed: set<RobotId>): Assignment {
    map r | r in ids :: if r in resumed then Resume else Pause
  }

  /** An answer that satisfies the model the solver was given. */
  predicate HonestAnswer(call: SolverCall, answer: Option<set<RobotId>>) {
    answer.Some? ==>
      var a := Decode(Elems(call.component), answer.value);
      Solves(a, Elems(call.component), call.noGoods) && Extends(a, call.hard)
  }

  ghost predicate Honest(solver: Option<Solver>) {
    solver.Some? ==> forall call :: HonestAnswer(call, solver.value(call))
  }

  lemma ValidCallIsScored(component: seq<RobotId>, m: ConflictModel, priorities: Priorities, hard: Assignment)
    requires ValidCall(component, m, priorities, hard)
    ensures Scored(Ascending(Elems(component)), priorities)
    ensures Elems(Ascending(Elems(component))) == Elems(component)
  {
    var ordered := Ascending(Elems(component));
    assert forall r | r in ordered :: r in Elems(ordered);
  }

  /** The model built for one component: its no-goods, the hard actions and the encoded objective. */
  function CallFor(component: seq<RobotId>, m: ConflictModel, priorities: Priorities, hard: Assignment): (call: SolverCall)
    requires ValidCall(component, m, priorities, hard)
    ensures Elems(call.component) == Elems(component) && Weighted(call.component, call.coefficients)
  {
    ValidCallIsScored(component, m, priorities, hard);
    var ordered := Ascending(Elems(component));
    SolverCall(
      ordered, ClausesOf(ComponentPairs(Elems(component), m.pairs)), hard, Coefficients(ordered, priorities)
    )
  }

  function DecodedAnswer(call: SolverCall, answer: Option<set<RobotId>>): Option<Assignment> {
    if answer.None? then None else Some(Decode(Elems(call.component), answer.value))
  }

  /** Run the solver on a model and trust its answer only after independent validation. */
  method SolveModel(call: SolverCall, pairs: seq<Compatibility>, solver: Solver) returns (r: Result<Option<Assignment>>)
    requires call.noGoods == ClausesOf(pairs) && OrderedPairs(pairs, Elems(call.component))
    ensures r.Raised? <==> !HonestAnswer(call, solver(call))
    ensures r.Raised? ==> r.error == UnsafeResult
    ensures r.Ok? ==> r.value == DecodedAnswer(call, solver(call))
    ensures r.Ok? && r.value.Some? ==> SafeCompletion(r.value.value, Elems(call.component), pairs, call.hard)
  {
    var answer := solver(call);
    if answer.None? {
      return Ok(None);
    }
    var decisions := Decode(Elems(call.component), answer.value);
    AcceptsSafeCompletions(call.component, decisions, pairs, call.hard);
    SolutionsAreSafeCompletions(decisions, Elems(call.component), pairs, call.hard);
    if !Accepts(call.component, decisions, pairs, call.hard) {
      return Raised(UnsafeResult);
    }
    r := Ok(Some(decisions));
  }

  /** The exact solver is consulted: the component is small enough and a backend is available. */
  predicate Consulted(cfg: Config, component: seq<RobotId>, solver: Option<Solver>) {
    |component| <= cfg.maximumExactComponentSize && solver.Some?
  }

  /** Optimise a component: `Ok(None)` asks for the deterministic fallback. */
  method Optimise(
    cfg: Config, component: seq<RobotId>, m: ConflictModel, priorities: Priorities, hard: Assignment,
    solver: Option<Solver>
  )
    returns (r: Result<Option<Assignment>>)
    requires OrderedPairs(m.pairs, m.snapshots.Keys)
    ensures r == Raised(InvalidInput) <==> !ValidCall(component, m, priorities, hard)
    ensures r == Raised(ObjectiveOverflow) <==>
              ValidCall(component, m, priorities, hard) && Consulted(cfg, component, solver)
              && OverflowsOn(Elems(component), priorities)
    ensures r == Raised(UnsafeResult) <==>
              ValidCall(component, m, priorities, hard) && Consulted(cfg, component, solver)
              && !OverflowsOn(Elems(component), priorities)
              && !HonestAnswer(
                    CallFor(component, m, priorities, hard), solver.value(CallFor(component, m, priorities, hard)))
    ensures r.Raised? ==> r.error == InvalidInput || r.error == ObjectiveOverflow || r.error == UnsafeResult
    ensures r.Ok? && !Consulted(cfg, component, solver) ==> r.value == None
    ensures r.Ok? && Consulted(cfg, component, solver) ==>
              var call := CallFor(component, m, priorities, hard);
              r.value == DecodedAnswer(call, solver.value(call))
    ensures r.Ok? && r.value.Some? ==>
              SafeCompletion(r.value.value, Elems(component), ComponentPairs(Elems(component), m.pairs), hard)
              && !OverflowsOn(Elems(component), priorities)
  {
    if !ValidCall(component, m, priorities, hard) {
      return Raised(InvalidInput);
    }
    if |component| > cfg.maximumExactComponentSize || solver.None? {
      return Ok(None);
    }
    ValidCallIsScored(component, m, priorities, hard);
    var objective := BuildObjectiveEncoding(Elems(component), priorities);
    if objective.Raised? {
      return Raised(objective.error);
    }
    var pairs := ComponentPairs(Elems(component), m.pairs);
    var call := SolverCall(
      Ascending(Elems(component)), ClausesOf(pairs), hard, objective.value.coefficients
    );
    assert call == CallFor(component, m, priorities, hard);
    r := SolveModel(call, pairs, solver.value);
  }

  /** The answer solves the model, and no solution of the model has a larger objective. */
  ghost predicate OptimalAnswer(call: SolverCall, resumed: set<RobotId>)
    requires Weighted(call.component, call.coefficients)
  {
    var best := Decode(Elems(call.component), resumed);
    && HonestAnswer(call, Some(resumed))
    && forall b :: Solves(b, Elems(call.component), call.noGoods) && Extends(b, call.hard) ==>
         Total(call.component, Resumed(b), call.coefficients) <= Total(call.component, Resumed(best), call.coefficients)
  }

  /** An optimal answer is a safe completion that no other safe completion beats lexicographically in
      (Resume count, secondary score, rank bonus). */
  lemma OptimalAnswerIsLexicographicallyBest(
    component: seq<RobotId>, m: ConflictModel, priorities: Priorities, hard: Assignment, resumed: set<RobotId>,
    reward: int, b: Assignment
  )
    requires ValidCall(component, m, priorities, hard) && OrderedPairs(m.pairs, m.snapshots.Keys)
    requires OptimalAnswer(CallFor(component, m, priorities, hard), resumed)
    requires CommonThroughput(Ascending(Elems(component)), priorities, reward)
    requires SafeCompletion(b, Elems(component), ComponentPairs(Elems(component), m.pairs), hard)
    ensures var best := Decode(Elems(component), resumed);
            && SafeCompletion(best, Elems(component), ComponentPairs(Elems(component), m.pairs), hard)
            && !LexLess(
                 Rating(Ascending(Elems(component)), priorities, Resumed(best)),
                 Rating(Ascending(Elems(component)), priorities, Resumed(b)))
  {
    hide PairsSafe, ComponentPairs, ClausesOf, Total, Coefficients, Rating, LexLess, CommonThroughput, OrderedPairs;
    var ids, ordered, pairs := Elems(component), Ascending(Elems(component)), ComponentPairs(Elems(component), m.pairs);
    var best := Decode(ids, resumed);
    PairsWithinComponent(m, component);
    SolutionsAreSafeCompletions(best, ids, pairs, hard);
    SolutionsAreSafeCompletions(b, ids, pairs, hard);
    AscendingIsDistinct(ids);
    ObjectiveIsLexicographic(ordered, priorities, Resumed(best), Resumed(b), reward);
  }

  lemma AscendingIsDistinct(ids: set<RobotId>)
    ensures Distinct(Ascending(ids)) && Elems(Ascending(ids)) == ids
  {
  }

  /** Some coefficient of the component exceeds the solver's integer range. */
  predicate OverflowsOn(ids: set<RobotId>, priorities: Priorities) {
    Scored(Ascending(ids), priorities) && Overflows(Ascending(ids), priorities)
  }
}
