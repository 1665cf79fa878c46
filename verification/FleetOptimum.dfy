/** With optimal answers for its components, a tick is optimal for the whole fleet. */
module FleetOptimum {
  import opened Basics
  import opened Conflicts
  import opened Decomposition
  import opened Fairness
  import opened GrantManagement
  import opened GrantRules
  import opened Models
  import opened NoGoods
  import opened Objective
  import opened Optimiser
  import opened Priority
  import opened Proposals
  import opened TickObjective
  import opened TickOutcome
  import opened TickSafety

  /** The hard actions of the whole fleet: retained Resumes, and Pauses of stale and at-goal robots. */
  function FleetHard(m: ConflictModel, hard: Assignment): Assignment {
    hard + PauseAll(set r | r in m.snapshots && m.Unavailable(r))
  }

  lemma FleetHardRestricts(m: ConflictModel, c: seq<RobotId>, hard: Assignment)
    requires forall r | r in c :: r in m.snapshots
    ensures Restrict(FleetHard(m, hard), Elems(c)) == ComponentHard(m, c, hard)
  {
  }

  /** The retained grants of a component never belong to unavailable robots. */
  lemma RetainedAvoidUnavailable(m: ConflictModel, before: GrantTable, hard: Assignment, kept: GrantTable)
    requires Usable(m) && RetainedExactly(m, before, hard, kept)
    ensures forall n | 0 <= n < |m.components| ::
              GroupOf(m.components[n], hard) !! UnavailableIn(m, m.components[n])
  {
    forall n | 0 <= n < |m.components|
      ensures GroupOf(m.components[n], hard) !! UnavailableIn(m, m.components[n])
    {
      UsableIsDisjoint(m);
      RetainedGroupCompletes(m, before, hard, kept, n);
      GroupAvoidsUnavailable(m, m.components[n], GroupOf(m.components[n], hard));
    }
  }

  /** In the order the solver is given, the component is itself. */
  lemma ComponentIsOrdered(m: ConflictModel, c: seq<RobotId>)
    requires IsComponent(m, c)
    ensures Ascending(Elems(c)) == c && c != [] && Distinct(c) && forall r | r in c :: r in m.snapshots
  {
    hide IsConflictComponent;
    assert forall r :: r in c <==> r in Elems(c);
    assert forall r :: r in Ascending(Elems(c)) <==> r in Elems(Ascending(Elems(c)));
    AscendingIsUnique(Ascending(Elems(c)), c);
    AscendingSize(c);
  }

  /** An optimal answer keeps the hard actions safely, and no safe assignment that keeps them has a larger value. */
  lemma AnswerIsBest(
    m: ConflictModel, c: seq<RobotId>, scores: Priorities, hard: Assignment, resumed: set<RobotId>, b: Assignment
  )
    requires OrderedPairs(m.pairs, m.snapshots.Keys) && Ascending(Elems(c)) == c
    requires ValidCall(c, m, scores, hard) && OptimalAnswer(CallFor(c, m, scores, hard), resumed)
    ensures Scored(c, scores) && Weighted(c, Coefficients(c, scores))
    ensures var best := Decode(Elems(c), resumed);
            && ComponentSafe(m, c, best) && Extends(best, hard)
            && (ComponentSafe(m, c, b) && Extends(b, hard) ==>
                  Total(c, Resumed(b), Coefficients(c, scores)) <= Total(c, Resumed(best), Coefficients(c, scores)))
  {
    hide OrderedPairs, ComponentPairs, Solves, PairsSafe, Total, Resumed, Decode, Coefficients, UtilityScale, Extends,
      Elems, ClausesOf;
    var (ids, pairs) := (Elems(c), ComponentPairs(Elems(c), m.pairs));
    ValidCallIsScored(c, m, scores, hard);
    PairsWithinComponent(m, c);
    SolutionsAreSafeCompletions(Decode(ids, resumed), ids, pairs, hard);
    SolutionsAreSafeCompletions(b, ids, pairs, hard);
  }

  /** An optimal answer maximises the encoded objective of its component under the hard actions. */
  lemma AnswerMaximises(m: ConflictModel, c: seq<RobotId>, scores: Priorities, hard: Assignment, resumed: set<RobotId>)
    requires OrderedPairs(m.pairs, m.snapshots.Keys) && Ascending(Elems(c)) == c
    requires ValidCall(c, m, scores, hard) && OptimalAnswer(CallFor(c, m, scores, hard), resumed)
    ensures Scored(c, scores) && Weighted(c, Coefficients(c, scores))
    ensures IsComponentMaximiser(m, c, hard, Decode(Elems(c), resumed), Coefficients(c, scores))
  {
    hide OrderedPairs, ComponentSafe, Extends, Total, Resumed, Decode, Coefficients, ValidCall, OptimalAnswer, CallFor;
    AnswerIsBest(m, c, scores, hard, resumed, Decode(Elems(c), resumed));
    forall b | ComponentSafe(m, c, b) && Extends(b, hard)
      ensures Total(c, Resumed(b), Coefficients(c, scores))
              <= Total(c, Resumed(Decode(Elems(c), resumed)), Coefficients(c, scores))
    {
      AnswerIsBest(m, c, scores, hard, resumed, b);
    }
  }

  /** The decided actions of a conflict component with an optimal answer maximise its encoded objective. */
  lemma ConflictPartMaximises(
    cfg: Config, m: ConflictModel, c: seq<RobotId>, nowMs: int, ages: Ages, kept: GrantTable, scores: Priorities,
    hard: Assignment, solver: Option<Solver>, a: Assignment
  )
    requires cfg.Valid() && IsComponent(m, c) && OrderedPairs(m.pairs, m.snapshots.Keys)
    requires ScoredPart(m, c, scores, cfg, nowMs, ages, kept)
    requires SolvedOptimally(cfg, m, c, scores, hard, solver)
    requires (forall r | r in hard :: hard[r] == Resume) && GroupOf(c, hard) !! UnavailableIn(m, c)
    requires PartByObjective(cfg, m, c, scores, hard, solver, a)
    ensures Scored(c, scores) && Weighted(c, Coefficients(c, scores))
    ensures IsComponentMaximiser(m, c, ComponentHard(m, c, hard), a, Coefficients(c, scores))
  {
    ComponentIsOrdered(m, c);
    hide IsComponent, OrderedPairs, ScoredPart, SolvedOptimally, PartByObjective, IsComponentMaximiser, CommonThroughput,
      GroupOf, UnavailableIn, ComponentHard, Coefficients, Ascending, ValidCall, OptimalAnswer, CallFor, Decode;
    ScoresShareThroughput(m, c, scores, cfg, nowMs, ages, kept);
    var resumed := OptimalAnswerIsDecided(
      cfg, m, c, scores, hard, solver, a, |c| * MaximumPerRobot(|c|, cfg) + 1);
    AnswerMaximises(m, c, scores, ComponentHard(m, c, hard), resumed);
  }

  lemma OneRobotTotal(r: RobotId, chosen: set<RobotId>, w: Weights)
    requires r in w
    ensures Total([r], chosen, w) == if r in chosen then w[r] else 0
  {
    assert [r][1..] == [];
  }

  lemma OneRobotCoefficient(r: RobotId, scores: Priorities)
    requires r in scores
    ensures Scored([r], scores) && r in Coefficients([r], scores)
    ensures Coefficients([r], scores)[r] == scores[r].finalScore
  {
    hide UtilityScale, RankBonuses, Coefficients;
    CoefficientOf([r], scores, r);
    ScaleValue([r]);
  }

  /** The policy action of an isolated robot maximises its own objective. */
  lemma LonePartMaximises(m: ConflictModel, r: RobotId, scores: Priorities, hard: Assignment, a: Assignment)
    requires OrderedPairs(m.pairs, m.snapshots.Keys) && r in m.snapshots && r !in hard
    requires r in scores && scores[r].finalScore >= 1
    requires a == map[r := if m.Unavailable(r) then Pause else Resume]
    ensures Scored([r], scores) && Weighted([r], Coefficients([r], scores))
    ensures IsComponentMaximiser(m, [r], ComponentHard(m, [r], hard), a, Coefficients([r], scores))
  {
    hide Total, OrderedPairs, Coefficients, ComponentPairs;
    var w := Coefficients([r], scores);
    OneRobotCoefficient(r, scores);
    OneRobotTotal(r, Resumed(a), w);
    SingletonIsSafe(m, [r], a);
    forall b | ComponentSafe(m, [r], b) && Extends(b, ComponentHard(m, [r], hard))
      ensures Total([r], Resumed(b), w) <= Total([r], Resumed(a), w)
    {
      OneRobotTotal(r, Resumed(b), w);
      if m.Unavailable(r) {
        assert r in ComponentHard(m, [r], hard);
      }
    }
  }

  /** The final score of every observed robot. */
  function ScoreMap(m: ConflictModel, scores: Priorities): Weights
    requires PrioritiesMatch(m, scores)
  {
    map r | r in m.snapshots :: scores[r].finalScore
  }

  /** Every conflict component is answered optimally. */
  ghost predicate AllSolvedOptimally(
    cfg: Config, m: ConflictModel, scores: Priorities, hard: Assignment, solver: Option<Solver>
  ) {
    forall n | 0 <= n < |m.components| && IsConflictComponent(m, m.components[n]) ::
      SolvedOptimally(cfg, m, m.components[n], scores, hard, solver)
  }

  lemma ScoredAt(
    m: ConflictModel, n: nat, scores: Priorities, cfg: Config, nowMs: int, ages: Ages, kept: GrantTable
  )
    requires cfg.Valid() && n < |m.components| && ScoredUpTo(m, scores, |m.components|, cfg, nowMs, ages, kept)
    ensures ScoredPart(m, m.components[n], scores, cfg, nowMs, ages, kept)
  {
    hide ScoredPart;
  }

  /** Any part of an optimally answered tick maximises its encoded objective under the hard actions. */
  lemma PartMaximises(
    cfg: Config, m: ConflictModel, nowMs: int, ages: Ages, before: GrantTable, kept: GrantTable, scores: Priorities,
    hard: Assignment, solver: Option<Solver>, decisions: Assignment, n: nat
  )
    requires cfg.Valid() && WellFormedModel(m) && n < |m.components|
    requires RetainedExactly(m, before, hard, kept) && ScoredUpTo(m, scores, |m.components|, cfg, nowMs, ages, kept)
    requires ByObjective(cfg, m, scores, hard, solver, decisions) && AllSolvedOptimally(cfg, m, scores, hard, solver)
    requires forall r | r in m.isolated :: FollowsPolicy(m, decisions, r)
    ensures var (c, ids) := (m.components[n], Elems(m.components[n]));
            && Scored(c, scores) && Weighted(c, Coefficients(c, scores))
            && IsComponentMaximiser(
                 m, c, Restrict(FleetHard(m, hard), ids), Restrict(decisions, ids), Coefficients(c, scores))
  {
    hide WellFormedModel, Usable, IsComponent, ScoredUpTo, ScoredPart, RetainedExactly, IsComponentMaximiser, FleetHard,
      Coefficients, SolvedOptimally, PartByObjective, OrderedPairs, FollowsPolicy, IsConflictComponent, Restrict;
    var (c, ids) := (m.components[n], Elems(m.components[n]));
    ScoredAt(m, n, scores, cfg, nowMs, ages, kept);
    WellFormedIsUsable(m);
    WellFormedPairs(m);
    ComponentAt(m, n);
    ComponentIsOrdered(m, c);
    FleetHardRestricts(m, c, hard);
    HardIsResume(m, before, hard, kept);
    if IsConflictComponent(m, c) {
      RetainedAvoidUnavailable(m, before, hard, kept);
      ConflictPartMaximises(cfg, m, c, nowMs, ages, kept, scores, hard, solver, Restrict(decisions, ids));
    } else {
      LonePart(m, c, scores, cfg, nowMs, ages, kept, hard, decisions);
    }
  }

  lemma LonePart(
    m: ConflictModel, c: seq<RobotId>, scores: Priorities, cfg: Config, nowMs: int, ages: Ages, kept: GrantTable,
    hard: Assignment, decisions: Assignment
  )
    requires cfg.Valid() && WellFormedModel(m) && IsComponent(m, c) && !IsConflictComponent(m, c)
    requires ScoredPart(m, c, scores, cfg, nowMs, ages, kept) && forall r | r in hard :: m.HasConflict(r)
    requires forall r | r in m.isolated :: FollowsPolicy(m, decisions, r)
    ensures Scored(c, scores) && Weighted(c, Coefficients(c, scores))
    ensures IsComponentMaximiser(m, c, ComponentHard(m, c, hard), Restrict(decisions, Elems(c)), Coefficients(c, scores))
  {
    hide WellFormedModel, ScoreIn, MaximumPerRobot, IsComponentMaximiser, Coefficients, ComponentHard, OrderedPairs;
    WellFormedIsolation(m);
    WellFormedPairs(m);
    var r := c[0];
    assert c == [r] && r in c;
    assert r in m.isolated && FollowsPolicy(m, decisions, r);
    assert Restrict(decisions, Elems(c)) == map[r := if m.Unavailable(r) then Pause else Resume];
    LonePartMaximises(m, r, scores, hard, Restrict(decisions, Elems(c)));
  }

  lemma HardIsObserved(m: ConflictModel, before: GrantTable, hard: Assignment, kept: GrantTable)
    requires WellFormedModel(m) && RetainedExactly(m, before, hard, kept)
    ensures FleetHard(m, hard).Keys <= m.snapshots.Keys
  {
    assert m.adjacency.Keys == m.snapshots.Keys;
    HardIsResume(m, before, hard, kept);
    hide WellFormedModel, RetainedExactly;
    assert forall r | r in hard :: m.HasConflict(r) && r in m.adjacency;
  }

  /** With an optimal answer for every conflict component, the decided actions maximise the summed final score
      among all safe fleet assignments that keep the hard actions. */
  lemma OptimalTickMaximises(
    cfg: Config, m: ConflictModel, nowMs: int, ages: Ages, before: GrantTable, kept: GrantTable, scores: Priorities,
    hard: Assignment, solver: Option<Solver>, decisions: Assignment
  )
    requires cfg.Valid() && WellFormedModel(m) && decisions.Keys == m.snapshots.Keys
    requires RetainedExactly(m, before, hard, kept) && ScoredUpTo(m, scores, |m.components|, cfg, nowMs, ages, kept)
    requires ByObjective(cfg, m, scores, hard, solver, decisions) && AllSolvedOptimally(cfg, m, scores, hard, solver)
    requires forall r | r in m.isolated :: FollowsPolicy(m, decisions, r)
    ensures PrioritiesMatch(m, scores) && Weighted(Ascending(m.snapshots.Keys), ScoreMap(m, scores))
    ensures IsFleetMaximiser(m, FleetHard(m, hard), decisions, ScoreMap(m, scores))
  {
    hide WellFormedModel, Usable, ScoredUpTo, RetainedExactly, IsComponentMaximiser, IsFleetMaximiser, FleetHard,
      Coefficients, ByObjective, AllSolvedOptimally, FollowsPolicy, Restrict;
    WellFormedIsUsable(m);
    AllScored(m, scores, cfg, nowMs, ages, kept);
    HardIsObserved(m, before, hard, kept);
    forall n | 0 <= n < |m.components|
      ensures var (c, ids) := (m.components[n], Elems(m.components[n]));
              && Scored(c, scores) && Weighted(c, Coefficients(c, scores))
              && IsComponentMaximiser(
                   m, c, Restrict(FleetHard(m, hard), ids), Restrict(decisions, ids), Coefficients(c, scores))
    {
      PartMaximises(cfg, m, nowMs, ages, before, kept, scores, hard, solver, decisions, n);
    }
    EncodedMaximisersCompose(m, FleetHard(m, hard), decisions, scores, ScoreMap(m, scores));
  }

  /** Under the scores of the tick, optimal answers make the decisions optimal. */
  ghost predicate MaximisesWhenOptimal(
    cfg: Config, m: ConflictModel, nowMs: int, ages: Ages, before: GrantTable, tick: int, solver: Option<Solver>,
    decisions: Assignment
  )
    requires cfg.Valid()
  {
    forall hard, kept, scores |
      TickScores(cfg, m, nowMs, ages, before, tick, hard, kept, scores)
      && AllSolvedOptimally(cfg, m, scores, hard, solver) ::
      && PrioritiesMatch(m, scores) && Weighted(Ascending(m.snapshots.Keys), ScoreMap(m, scores))
      && IsFleetMaximiser(m, FleetHard(m, hard), decisions, ScoreMap(m, scores))
  }

  lemma DecisionMaximises(
    cfg: Config, m: ConflictModel, nowMs: int, ages: Ages, before: GrantTable, tick: int, solver: Option<Solver>,
    decisions: Assignment
  )
    requires cfg.Valid() && WellFormedModel(m) && decisions.Keys == m.snapshots.Keys
    requires DecidedByObjective(cfg, m, nowMs, ages, before, tick, solver, decisions)
    requires forall r | r in m.isolated :: FollowsPolicy(m, decisions, r)
    ensures MaximisesWhenOptimal(cfg, m, nowMs, ages, before, tick, solver, decisions)
  {
    hide WellFormedModel, ByObjective, AllSolvedOptimally, FollowsPolicy, IsFleetMaximiser, RetainedExactly, ScoredUpTo,
      ReconcileAll, PrioritiesMatch;
    var hard, kept, scores :|
      TickScores(cfg, m, nowMs, ages, before, tick, hard, kept, scores)
      && ByObjective(cfg, m, scores, hard, solver, decisions);
    forall hard', kept', scores' |
      TickScores(cfg, m, nowMs, ages, before, tick, hard', kept', scores')
      && AllSolvedOptimally(cfg, m, scores', hard', solver)
      ensures PrioritiesMatch(m, scores') && Weighted(Ascending(m.snapshots.Keys), ScoreMap(m, scores'))
      ensures IsFleetMaximiser(m, FleetHard(m, hard'), decisions, ScoreMap(m, scores'))
    {
      TickScoresAreUnique(cfg, m, nowMs, ages, before, tick, hard, kept, scores, hard', kept', scores');
      OptimalTickMaximises(
        cfg, m, nowMs, ages, ReconcileAll(before, tick, m, nowMs, cfg), kept, scores, hard, solver, decisions);
    }
  }
}
