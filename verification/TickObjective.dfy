/** What the scores of a tick decide: the actions, the failures and the optimum. */
module TickObjective {
  import opened Basics
  import opened Components
  import opened Conflicts
  import opened Decomposition
  import opened Fairness
  import opened GrantManagement
  import opened GrantRules
  import opened Heuristic
  import opened Models
  import opened Objective
  import opened Optimiser
  import opened Priority
  import opened Proposals
  import opened TickOutcome
  import opened TickSafety

  // ---------------------------------------------------------------- the scores of a tick

  /** The retained grants of a tick, and the scores under them. */
  ghost predicate TickScores(
    cfg: Config, m: ConflictModel, nowMs: int, ages: Ages, before: GrantTable, tick: int, hard: Assignment,
    kept: GrantTable, scores: Priorities
  )
    requires cfg.Valid()
  {
    && RetainedExactly(m, ReconcileAll(before, tick, m, nowMs, cfg), hard, kept)
    && ScoredUpTo(m, scores, |m.components|, cfg, nowMs, ages, kept)
  }

  /** A greedy group exists whatever the candidates. */
  lemma GreedyGroupExists(m: ConflictModel, c: seq<RobotId>, candidates: set<RobotId>, key: SortKey)
    returns (chosen: set<RobotId>)
    ensures IsGreedyGroup(m, c, {}, candidates, chosen, key)
  {
    hide Completable, GreedyPrefix, IsGreedyGroup, SortedBy;
    var ordered := Sort(candidates, key);
    chosen := {};
    GreedyStart(m, c, {}, ordered, key);
    for n := 0 to |ordered|
      invariant GreedyPrefix(m, c, {}, ordered, n, chosen, key)
    {
      assert {} + chosen + {ordered[n]} == chosen + {ordered[n]};
      var accept := Completable(m, c, chosen + {ordered[n]});
      GreedyStep(m, c, {}, ordered, n, chosen, key, accept);
      chosen := if accept then chosen + {ordered[n]} else chosen;
    }
    GreedyDone(m, c, {}, ordered, chosen, key);
    assert Elems(ordered) == candidates;
  }

  lemma RetentionExists(m: ConflictModel, before: GrantTable) returns (hard: Assignment, kept: GrantTable)
    requires DisjointParts(m.components)
    ensures RetainedExactly(m, before, hard, kept)
  {
    hide RetainedUpTo, IsGreedyGroup, ConflictingHolders, DisjointParts;
    hard, kept := map[], before;
    NothingRetainedYet(m, before);
    for n := 0 to |m.components|
      invariant RetainedUpTo(m, before, hard, kept, n)
    {
      var c := m.components[n];
      var retained := GreedyGroupExists(m, c, ConflictingHolders(m, c, kept), AgeKey(before));
      RetainNext(m, before, hard, kept, n, retained);
      hard, kept := hard + ResumeAll(retained), kept - (ConflictingHolders(m, c, kept) - retained);
    }
  }

  /** What scoring demands of the tick; every tick of the engine provides it. */
  ghost predicate Scorable(m: ConflictModel, nowMs: int, ages: Ages) {
    && nowMs >= 0 && IdsMatch(m.snapshots) && Usable(m) && PairsSorted(m.pairs)
    && forall r | r in ages :: ages[r] >= 0
  }

  lemma PartScoresExist(
    m: ConflictModel, c: seq<RobotId>, cfg: Config, nowMs: int, ages: Ages, grants: GrantTable
  )
    returns (scores: Priorities)
    requires cfg.Valid() && Scorable(m, nowMs, ages) && IsComponent(m, c)
    ensures scores.Keys == Elems(c) && ScoredPart(m, c, scores, cfg, nowMs, ages, grants)
  {
    ComponentIsObserved(m, c);
    forall r | r in c
      ensures var s := ScoreIn(m, c, r, cfg, nowMs, ages, grants); s.Ok? && ScoreWithin(s.value, r, |c|, cfg)
    {
      ScoreOfMember(m, c, r, cfg, nowMs, ages, grants);
    }
    hide Scorable, IsComponent, ScoreIn, ScoreWithin;
    scores := map r | r in c :: ScoreIn(m, c, r, cfg, nowMs, ages, grants).value;
  }

  lemma ComponentIsObserved(m: ConflictModel, c: seq<RobotId>)
    requires IsComponent(m, c)
    ensures forall r | r in c :: r in m.snapshots
  {
  }

  lemma ScoresExist(m: ConflictModel, cfg: Config, nowMs: int, ages: Ages, grants: GrantTable)
    returns (scores: Priorities)
    requires cfg.Valid() && Scorable(m, nowMs, ages)
    ensures ScoredUpTo(m, scores, |m.components|, cfg, nowMs, ages, grants)
  {
    hide Scorable, IsComponent, ScoredUpTo, ScoredPart, DisjointParts;
    scores := map[];
    NothingScoredYet(m, cfg, nowMs, ages, grants);
    for n := 0 to |m.components|
      invariant ScoredUpTo(m, scores, n, cfg, nowMs, ages, grants)
    {
      ScorableAt(m, nowMs, ages, n);
      var part := PartScoresExist(m, m.components[n], cfg, nowMs, ages, grants);
      ScoreNext(m, scores, n, cfg, nowMs, ages, grants, part);
      scores := scores + part;
    }
  }

  lemma NothingScoredYet(m: ConflictModel, cfg: Config, nowMs: int, ages: Ages, grants: GrantTable)
    requires cfg.Valid()
    ensures ScoredUpTo(m, map[], 0, cfg, nowMs, ages, grants)
  {
  }

  lemma ScorableAt(m: ConflictModel, nowMs: int, ages: Ages, n: nat)
    requires Scorable(m, nowMs, ages) && n < |m.components|
    ensures IsComponent(m, m.components[n]) && DisjointParts(m.components)
  {
    hide PairsSorted, IdsMatch;
    ComponentAt(m, n);
  }

  /** Every tick has scores. */
  lemma TickScoresExist(cfg: Config, m: ConflictModel, nowMs: int, ages: Ages, before: GrantTable, tick: int)
    returns (hard: Assignment, kept: GrantTable, scores: Priorities)
    requires cfg.Valid() && Scorable(m, nowMs, ages)
    ensures TickScores(cfg, m, nowMs, ages, before, tick, hard, kept, scores)
  {
    assert DisjointParts(m.components) by {
      UsableIsDisjoint(m);
    }
    hide Scorable, RetainedExactly, ScoredUpTo, ReconcileAll;
    hard, kept := RetentionExists(m, ReconcileAll(before, tick, m, nowMs, cfg));
    scores := ScoresExist(m, cfg, nowMs, ages, kept);
  }

  lemma SameRetained(
    m: ConflictModel, before: GrantTable, hard: Assignment, kept: GrantTable, hard': Assignment, kept': GrantTable,
    r: RobotId
  )
    requires RetainedExactly(m, before, hard, kept) && RetainedExactly(m, before, hard', kept') && r in hard
    ensures r in hard'
  {
    hide IsGreedyGroup;
    assert InSome(m.components[..|m.components|], r) && m.HasConflict(r) && r in before;
    var k :| 0 <= k < |m.components[..|m.components|]| && r in m.components[..|m.components|][k];
    var c := m.components[k];
    var holders := ConflictingHolders(m, c, before);
    assert RetainedIn(m, c, before, hard) && RetainedIn(m, c, before, hard');
    GreedyGroupIsUnique(m, c, {}, holders, holders * hard.Keys, holders * hard'.Keys, AgeKey(before));
    assert r in holders * hard.Keys;
  }

  /** Retention has one outcome. */
  lemma RetentionIsUnique(
    m: ConflictModel, before: GrantTable, hard: Assignment, kept: GrantTable, hard': Assignment, kept': GrantTable
  )
    requires RetainedExactly(m, before, hard, kept) && RetainedExactly(m, before, hard', kept')
    ensures hard == hard' && kept == kept'
  {
    assert hard.Keys == hard'.Keys by {
      hide RetainedExactly;
      forall r
        ensures r in hard <==> r in hard'
      {
        if r in hard {
          SameRetained(m, before, hard, kept, hard', kept', r);
        }
        if r in hard' {
          SameRetained(m, before, hard', kept', hard, kept, r);
        }
      }
    }
    hide RetainedIn, InSome;
    assert hard == hard';
  }

  lemma SameScore(
    m: ConflictModel, cfg: Config, nowMs: int, ages: Ages, grants: GrantTable, x: Priorities, y: Priorities, r: RobotId
  )
    requires cfg.Valid() && r in x
    requires ScoredUpTo(m, x, |m.components|, cfg, nowMs, ages, grants)
    requires ScoredUpTo(m, y, |m.components|, cfg, nowMs, ages, grants)
    ensures r in y && x[r] == y[r]
  {
    hide ScoreIn, ScoreWithin;
    assert InSome(m.components[..|m.components|], r);
    var k :| 0 <= k < |m.components[..|m.components|]| && r in m.components[..|m.components|][k];
    assert ScoredPart(m, m.components[k], x, cfg, nowMs, ages, grants);
    assert ScoredPart(m, m.components[k], y, cfg, nowMs, ages, grants);
  }

  /** A tick has exactly one retention and exactly one set of scores. */
  lemma TickScoresAreUnique(
    cfg: Config, m: ConflictModel, nowMs: int, ages: Ages, before: GrantTable, tick: int, hard: Assignment,
    kept: GrantTable, scores: Priorities, hard': Assignment, kept': GrantTable, scores': Priorities
  )
    requires cfg.Valid()
    requires TickScores(cfg, m, nowMs, ages, before, tick, hard, kept, scores)
    requires TickScores(cfg, m, nowMs, ages, before, tick, hard', kept', scores')
    ensures hard == hard' && kept == kept' && scores == scores'
  {
    hide RetainedExactly, ScoredUpTo, ReconcileAll;
    RetentionIsUnique(m, ReconcileAll(before, tick, m, nowMs, cfg), hard, kept, hard', kept');
    forall r
      ensures r in scores <==> r in scores'
      ensures r in scores && r in scores' ==> scores[r] == scores'[r]
    {
      if r in scores {
        SameScore(m, cfg, nowMs, ages, kept, scores, scores', r);
      }
      if r in scores' {
        SameScore(m, cfg, nowMs, ages, kept, scores', scores, r);
      }
    }
    assert scores.Keys == scores'.Keys;
  }

  // ---------------------------------------------------------------- when a tick fails

  /** Some conflict component overflows on the scores of the tick. */
  ghost predicate TickOverflows(
    cfg: Config, m: ConflictModel, nowMs: int, ages: Ages, before: GrantTable, tick: int
  )
    requires cfg.Valid()
  {
    exists hard, kept, scores ::
      TickScores(cfg, m, nowMs, ages, before, tick, hard, kept, scores) && SomeOverflow(m, scores, |m.components|)
  }

  /** The solver's answer for some conflict component, on the model built from the scores of the tick, breaks
      that model. */
  ghost predicate TickRejected(
    cfg: Config, m: ConflictModel, nowMs: int, ages: Ages, before: GrantTable, tick: int, solver: Option<Solver>
  )
    requires cfg.Valid()
  {
    exists hard, kept, scores ::
      TickScores(cfg, m, nowMs, ages, before, tick, hard, kept, scores)
      && SomeRejected(cfg, m, scores, hard, solver, |m.components|)
  }

  /** A tick whose own scores neither overflow nor meet a rejected answer does not fail. */
  lemma TickSucceeds(
    cfg: Config, m: ConflictModel, nowMs: int, ages: Ages, before: GrantTable, tick: int, solver: Option<Solver>,
    hard: Assignment, kept: GrantTable, scores: Priorities
  )
    requires cfg.Valid() && TickScores(cfg, m, nowMs, ages, before, tick, hard, kept, scores)
    requires !SomeOverflow(m, scores, |m.components|)
    requires !SomeRejected(cfg, m, scores, hard, solver, |m.components|)
    ensures !TickOverflows(cfg, m, nowMs, ages, before, tick)
    ensures !TickRejected(cfg, m, nowMs, ages, before, tick, solver)
  {
    hide TickScores, SomeOverflow, SomeRejected;
    forall hard', kept', scores' | TickScores(cfg, m, nowMs, ages, before, tick, hard', kept', scores')
      ensures !SomeOverflow(m, scores', |m.components|)
      ensures !SomeRejected(cfg, m, scores', hard', solver, |m.components|)
    {
      TickScoresAreUnique(cfg, m, nowMs, ages, before, tick, hard, kept, scores, hard', kept', scores');
    }
  }

  /** Only a solver that breaks its contract is ever rejected. */
  lemma HonestIsNotRejected(
    cfg: Config, m: ConflictModel, nowMs: int, ages: Ages, before: GrantTable, tick: int, solver: Option<Solver>
  )
    requires cfg.Valid() && TickRejected(cfg, m, nowMs, ages, before, tick, solver)
    ensures !Honest(solver)
  {
    hide TickScores, RejectedPart, IsConflictComponent, Honest;
    var hard, kept, scores :|
      TickScores(cfg, m, nowMs, ages, before, tick, hard, kept, scores)
      && SomeRejected(cfg, m, scores, hard, solver, |m.components|);
    var k :| 0 <= k < |m.components| && RejectedConflict(cfg, m, m.components[k], scores, hard, solver);
    RejectedIsDishonest(cfg, m, m.components[k], scores, hard, solver);
  }

  /** With a configuration that fits the fleet no tick overflows. */
  lemma FittingTickDoesNotOverflow(
    cfg: Config, m: ConflictModel, nowMs: int, ages: Ages, before: GrantTable, tick: int
  )
    requires cfg.Valid() && Usable(m) && FleetFits(|m.snapshots|, cfg)
    ensures !TickOverflows(cfg, m, nowMs, ages, before, tick)
  {
    hide Usable, FleetFits, SomeOverflow, RetainedExactly, ReconcileAll, ScoredUpTo;
    forall hard, kept, scores | TickScores(cfg, m, nowMs, ages, before, tick, hard, kept, scores)
      ensures !SomeOverflow(m, scores, |m.components|)
    {
      FittingScoresDoNotOverflow(m, scores, cfg, nowMs, ages, kept);
    }
  }

  /** A component whose scaled throughput reward is out of range overflows on any of its scores. */
  lemma LargeRewardOverflows(
    m: ConflictModel, c: seq<RobotId>, scores: Priorities, cfg: Config, nowMs: int, ages: Ages, grants: GrantTable
  )
    requires cfg.Valid() && IsComponent(m, c) && ScoredPart(m, c, scores, cfg, nowMs, ages, grants)
    requires RewardOutOfRange(|c|, cfg)
    ensures OverflowsOn(Elems(c), scores)
  {
    hide ScoreIn, MaximumPerRobot, IsConflictComponent, Overflows;
    var ordered := Ascending(Elems(c));
    OrderedComponent(c);
    MaximumNonNegative(|c|, cfg);
    RewardForcesOverflow(ordered, scores, |c| * MaximumPerRobot(|c|, cfg) + 1);
  }

  lemma OrderedComponent(c: seq<RobotId>)
    requires StrictlyAscending(c) && c != []
    ensures var ordered := Ascending(Elems(c));
            Distinct(ordered) && |ordered| == |c| && ordered != [] && forall r :: r in ordered <==> r in c
  {
    var ordered := Ascending(Elems(c));
    AscendingSize(c);
    AscendingSize(ordered);
    assert forall r :: r in ordered <==> r in Elems(ordered);
  }

  /** The throughput reward of a component of this size, scaled for its rank bonuses, exceeds the
      solver's integer range. */
  predicate RewardOutOfRange(size: int, cfg: Config) {
    (size * MaximumPerRobot(size, cfg) + 1) * (size * (size - 1) / 2 + 1) > CP_SAT_INTEGER_LIMIT
  }

  /** If the observed model has such a conflict component, the tick overflows, whatever the robots' states,
      ages and grants are. */
  lemma LargeRewardOverflowsTick(
    cfg: Config, m: ConflictModel, nowMs: int, ages: Ages, before: GrantTable, tick: int, n: nat
  )
    requires cfg.Valid() && Scorable(m, nowMs, ages) && n < |m.components|
    requires IsConflictComponent(m, m.components[n]) && RewardOutOfRange(|m.components[n]|, cfg)
    ensures TickOverflows(cfg, m, nowMs, ages, before, tick)
  {
    hide Scorable, RetainedExactly, ReconcileAll, IsConflictComponent, RewardOutOfRange, ScoredPart, IsComponent,
      OverflowsOn;
    var hard, kept, scores := TickScoresExist(cfg, m, nowMs, ages, before, tick);
    ScorableAt(m, nowMs, ages, n);
    assert ScoredPart(m, m.components[n], scores, cfg, nowMs, ages, kept);
    LargeRewardOverflows(m, m.components[n], scores, cfg, nowMs, ages, kept);
    OverflowFound(m, scores, n);
  }

  /** A valid configuration under which every two-robot conflict component is out of range. */
  function OverflowingConfig(): (cfg: Config)
    ensures cfg.Valid() && RewardOutOfRange(2, cfg)
  {
    var cfg := Config(1.0, 3.0, 20, 256, 2, 10, 2, 0x2000_0000_0000_0000, 0, 0, 1, 20.0, 0, 0, 0, 0, 0);
    assert MaximumPerRobot(2, cfg) == 0x2000_0000_0000_0000;
    cfg
  }

  /** Configuration validation does not rule overflow out: under one valid configuration every tick
      with a two-robot conflict component overflows. */
  lemma ValidConfigurationCanOverflow(
    m: ConflictModel, nowMs: int, ages: Ages, before: GrantTable, tick: int, n: nat
  )
    requires Scorable(m, nowMs, ages) && n < |m.components|
    requires IsConflictComponent(m, m.components[n]) && |m.components[n]| == 2
    ensures TickOverflows(OverflowingConfig(), m, nowMs, ages, before, tick)
  {
    hide Scorable, IsConflictComponent, OverflowingConfig, RewardOutOfRange;
    LargeRewardOverflowsTick(OverflowingConfig(), m, nowMs, ages, before, tick, n);
  }

  // ---------------------------------------------------------------- feasibility checks fail no earlier

  lemma OverflowWitness(ordered: seq<RobotId>, priorities: Priorities) returns (r: RobotId)
    requires Scored(ordered, priorities) && Overflows(ordered, priorities)
    ensures r in ordered && r in Coefficients(ordered, priorities)
    ensures Coefficients(ordered, priorities)[r] > CP_SAT_INTEGER_LIMIT
  {
    hide UtilityScale, RankBonuses;
    r :| r in ordered && Coefficients(ordered, priorities)[r] > CP_SAT_INTEGER_LIMIT;
  }

  lemma NeutralCoefficients(ordered: seq<RobotId>, c: seq<RobotId>, scores: Priorities)
    requires Scored(ordered, Neutral(c)) && Scored(ordered, scores) && Overflows(ordered, Neutral(c))
    requires forall r | r in ordered :: scores[r].finalScore >= 1
    ensures Overflows(ordered, scores)
  {
    hide UtilityScale, RankBonuses, Coefficients;
    ScalePositive(ordered);
    var r := OverflowWitness(ordered, Neutral(c));
    CoefficientOf(ordered, Neutral(c), r);
    CoefficientOf(ordered, scores, r);
    MultipleGrows(scores[r].finalScore, Neutral(c)[r].finalScore, UtilityScale(ordered));
  }

  /** A component whose feasibility checks overflow is a conflict component that overflows on its scores. */
  lemma NeutralOverflowImpliesScored(
    m: ConflictModel, c: seq<RobotId>, scores: Priorities, cfg: Config, nowMs: int, ages: Ages, grants: GrantTable
  )
    requires cfg.Valid() && IsComponent(m, c) && ScoredPart(m, c, scores, cfg, nowMs, ages, grants)
    requires NeutralOverflow(c)
    ensures OverflowingPart(m, c, scores)
  {
    hide ScoreIn, MaximumPerRobot, IsConflictComponent, Overflows;
    var ordered := Ascending(Elems(c));
    OrderedComponent(c);
    NeutralCoefficients(ordered, c, scores);
    if |c| == 1 {
      SingletonDoesNotOverflow(c);
    }
  }

  lemma SingletonDoesNotOverflow(c: seq<RobotId>)
    requires StrictlyAscending(c) && |c| == 1
    ensures !NeutralOverflow(c)
  {
    hide UtilityScale, RankBonuses, Coefficients;
    var ordered := Ascending(Elems(c));
    OrderedComponent(c);
    ScaleValue(ordered);
    forall r | r in ordered
      ensures r in Coefficients(ordered, Neutral(c)) && Coefficients(ordered, Neutral(c))[r] <= CP_SAT_INTEGER_LIMIT
    {
      CoefficientOf(ordered, Neutral(c), r);
    }
  }

  /** So the grant manager's own checks never overflow in a tick whose scores do not. */
  lemma NeutralOverflowsTick(cfg: Config, m: ConflictModel, nowMs: int, ages: Ages, before: GrantTable, tick: int)
    requires cfg.Valid() && Scorable(m, nowMs, ages) && SomeNeutralOverflow(m)
    ensures TickOverflows(cfg, m, nowMs, ages, before, tick)
  {
    hide Scorable, RetainedExactly, ReconcileAll, IsComponent, ScoredPart, NeutralOverflow, OverflowingPart;
    var hard, kept, scores := TickScoresExist(cfg, m, nowMs, ages, before, tick);
    var k :| 0 <= k < |m.components| && NeutralOverflow(m.components[k]);
    ScorableAt(m, nowMs, ages, k);
    assert ScoredPart(m, m.components[k], scores, cfg, nowMs, ages, kept);
    NeutralOverflowImpliesScored(m, m.components[k], scores, cfg, nowMs, ages, kept);
    OverflowFound(m, scores, k);
  }

  // ---------------------------------------------------------------- when nothing overflows

  /** With a configuration that fits the fleet size, no score of any component overflows. */
  lemma FittingScoresDoNotOverflow(
    m: ConflictModel, scores: Priorities, cfg: Config, nowMs: int, ages: Ages, grants: GrantTable
  )
    requires cfg.Valid() && Usable(m) && FleetFits(|m.snapshots|, cfg)
    requires ScoredUpTo(m, scores, |m.components|, cfg, nowMs, ages, grants)
    ensures !SomeOverflow(m, scores, |m.components|)
  {
    hide Usable, FleetFits, ScoredUpTo, ScoredPart, WorstCoefficient;
    forall n | 0 <= n < |m.components|
      ensures !OverflowingPart(m, m.components[n], scores)
    {
      var c := m.components[n];
      ComponentAt(m, n);
      ScoredAt(m, scores, cfg, nowMs, ages, grants, n);
      PartFits(m, c, cfg);
      FitsWhenBounded(c, scores, cfg);
    }
  }

  lemma ScoredAt(
    m: ConflictModel, scores: Priorities, cfg: Config, nowMs: int, ages: Ages, grants: GrantTable, n: nat
  )
    requires cfg.Valid() && n < |m.components|
    requires ScoredUpTo(m, scores, |m.components|, cfg, nowMs, ages, grants)
    ensures forall r | r in m.components[n] ::
              r in scores
              && 0 <= scores[r].finalScore
                 <= (|m.components[n]| + 1) * MaximumPerRobot(|m.components[n]|, cfg) + 1
  {
    hide ScoreIn, MaximumPerRobot;
    assert ScoredPart(m, m.components[n], scores, cfg, nowMs, ages, grants);
  }

  /** A component is no larger than the fleet. */
  lemma PartFits(m: ConflictModel, c: seq<RobotId>, cfg: Config)
    requires IsComponent(m, c) && FleetFits(|m.snapshots|, cfg)
    ensures WorstCoefficient(|c|, cfg) <= CP_SAT_INTEGER_LIMIT
  {
    hide IsConflictComponent, WorstCoefficient;
    AscendingSize(c);
    assert Elems(c) <= m.snapshots.Keys;
    SubsetSize(Elems(c), m.snapshots.Keys);
    assert |m.snapshots.Keys| == |m.snapshots|;
  }

  lemma FitsWhenBounded(c: seq<RobotId>, scores: Priorities, cfg: Config)
    requires cfg.Valid() && StrictlyAscending(c) && c != []
    requires forall r | r in c ::
               r in scores && 0 <= scores[r].finalScore <= (|c| + 1) * MaximumPerRobot(|c|, cfg) + 1
    requires WorstCoefficient(|c|, cfg) <= CP_SAT_INTEGER_LIMIT
    ensures !OverflowsOn(Elems(c), scores)
  {
    var ordered := Ascending(Elems(c));
    AscendingSize(c);
    AscendingSize(ordered);
    forall r | r in ordered
      ensures r in c
    {
      assert r in Elems(ordered);
    }
    hide WorstCoefficient, Overflows, MaximumPerRobot, Ascending;
    assert ordered != [];
    WithinWorstCase(ordered, scores, cfg);
  }

  // ---------------------------------------------------------------- what the objective decides

  /** A conflict component acts on its proposal, or, if that proposal needlessly pauses it throughout, on
      the best moving completion. */
  ghost predicate PartByObjective(
    cfg: Config, m: ConflictModel, c: seq<RobotId>, priorities: Priorities, hard: Assignment, solver: Option<Solver>,
    a: Assignment
  ) {
    exists b :: IsChosenPart(cfg, m, c, priorities, hard, solver, b)
                && PreviewedComponent(m, c, hard, b, a) && RepairedBest(m, c, priorities, hard, b, a)
  }

  ghost predicate ByObjective(
    cfg: Config, m: ConflictModel, priorities: Priorities, hard: Assignment, solver: Option<Solver>, decisions: Assignment
  ) {
    forall n | 0 <= n < |m.components| && IsConflictComponent(m, m.components[n]) ::
      PartByObjective(cfg, m, m.components[n], priorities, hard, solver, Restrict(decisions, Elems(m.components[n])))
  }

  /** The decisions follow the objective computed from the scores of the tick, under its retained grants. */
  ghost predicate DecidedByObjective(
    cfg: Config, m: ConflictModel, nowMs: int, ages: Ages, before: GrantTable, tick: int, solver: Option<Solver>,
    decisions: Assignment
  )
    requires cfg.Valid()
  {
    exists hard, kept, scores ::
      TickScores(cfg, m, nowMs, ages, before, tick, hard, kept, scores)
      && ByObjective(cfg, m, scores, hard, solver, decisions)
  }

  lemma PreviewByObjective(
    cfg: Config, m: ConflictModel, priorities: Priorities, hard: Assignment, solver: Option<Solver>, proposed: Assignment,
    preview: Preview
  )
    requires ChosenUpTo(cfg, m, priorities, hard, solver, proposed, |m.components|)
    requires IsPreview(m, hard, proposed, preview)
    requires RepairedUpTo(m, priorities, hard, proposed, preview.decisions, |m.components|)
    ensures ByObjective(cfg, m, priorities, hard, solver, preview.decisions)
  {
    hide IsChosenPart, RepairedBest, PreviewedComponent, IsConflictComponent, DeadPart, Restrict;
    forall n | 0 <= n < |m.components| && IsConflictComponent(m, m.components[n])
      ensures PartByObjective(
                cfg, m, m.components[n], priorities, hard, solver, Restrict(preview.decisions, Elems(m.components[n])))
    {
      assert RepairedPart(m, m.components[n], priorities, hard, proposed, preview.decisions);
      assert PartPreviewed(m, m.components[n], hard, proposed, preview.decisions, true);
      assert IsChosenPart(cfg, m, m.components[n], priorities, hard, solver, Restrict(proposed, Elems(m.components[n])));
    }
  }

  lemma GroupResumes(m: ConflictModel, c: seq<RobotId>, group: set<RobotId>)
    ensures forall r | r in group :: r in GroupHard(m, c, group) && GroupHard(m, c, group)[r] == Resume
  {
  }

  lemma PausedGroupIsEmpty(m: ConflictModel, c: seq<RobotId>, hard: Assignment, b: Assignment)
    requires (forall r | r in hard :: hard[r] == Resume) && GroupOf(c, hard) !! UnavailableIn(m, c)
    requires Extends(b, ComponentHard(m, c, hard)) && AllPause(b)
    ensures RepairHard(m, c, hard) == ComponentHard(m, c, hard)
  {
    ComponentHardIsGroupHard(m, c, hard);
    var group := GroupOf(c, hard);
    GroupResumes(m, c, group);
    assert group == {};
    RepairHardIsGroupHard(m, c, hard);
  }

  lemma MovingBeatsPaused(ordered: seq<RobotId>, priorities: Priorities, paused: Assignment, moving: Assignment)
    requires Scored(ordered, priorities) && AllPause(paused) && HasResume(moving)
    ensures LexLess(Rating(ordered, priorities, Resumed(paused)), Rating(ordered, priorities, Resumed(moving)))
  {
    hide Total;
    assert Resumed(paused) == {};
    var r :| r in moving && moving[r] == Resume;
    assert r in Resumed(moving);
  }

  /** The solver is consulted for the component and answers optimally. */
  ghost predicate SolvedOptimally(
    cfg: Config, m: ConflictModel, c: seq<RobotId>, scores: Priorities, hard: Assignment, solver: Option<Solver>
  ) {
    && ValidCall(c, m, scores, ComponentHard(m, c, hard)) && Consulted(cfg, c, solver)
    && var call := CallFor(c, m, scores, ComponentHard(m, c, hard));
       solver.value(call).Some? && OptimalAnswer(call, solver.value(call).value)
  }

  /** An optimal answer is what the component does; the preview never repairs it. */
  lemma OptimalAnswerIsDecided(
    cfg: Config, m: ConflictModel, c: seq<RobotId>, scores: Priorities, hard: Assignment, solver: Option<Solver>,
    a: Assignment, reward: int
  )
    returns (resumed: set<RobotId>)
    requires OrderedPairs(m.pairs, m.snapshots.Keys) && SolvedOptimally(cfg, m, c, scores, hard, solver)
    requires (forall r | r in hard :: hard[r] == Resume) && GroupOf(c, hard) !! UnavailableIn(m, c)
    requires CommonThroughput(Ascending(Elems(c)), scores, reward)
    requires PartByObjective(cfg, m, c, scores, hard, solver, a)
    ensures ValidCall(c, m, scores, ComponentHard(m, c, hard)) && a == Decode(Elems(c), resumed)
    ensures OptimalAnswer(CallFor(c, m, scores, ComponentHard(m, c, hard)), resumed)
  {
    hide ValidCall, CommonThroughput, OptimalAnswer, CallFor, SafeCompletion, CanProgress, ComponentHard, RepairHard,
      UnavailableIn, GroupOf, RepairedBest, OrderedPairs, ComponentPairs, Ascending, Elems, AllPause;
    var call := CallFor(c, m, scores, ComponentHard(m, c, hard));
    resumed := solver.value(call).value;
    var b :| IsChosenPart(cfg, m, c, scores, hard, solver, b)
             && PreviewedComponent(m, c, hard, b, a) && RepairedBest(m, c, scores, hard, b, a);
    assert b == Decode(Elems(c), resumed);
    if AllPause(b) {
      OptimalIsNotRepaired(m, c, scores, hard, resumed, reward);
    }
  }

  /** So no safe completion that keeps the hard actions beats the decided actions in (Resume count, secondary
      score, rank bonus). */
  lemma OptimalComponentIsDecided(
    cfg: Config, m: ConflictModel, c: seq<RobotId>, scores: Priorities, hard: Assignment, solver: Option<Solver>,
    a: Assignment, reward: int, rival: Assignment
  )
    requires OrderedPairs(m.pairs, m.snapshots.Keys) && SolvedOptimally(cfg, m, c, scores, hard, solver)
    requires (forall r | r in hard :: hard[r] == Resume) && GroupOf(c, hard) !! UnavailableIn(m, c)
    requires CommonThroughput(Ascending(Elems(c)), scores, reward)
    requires PartByObjective(cfg, m, c, scores, hard, solver, a)
    requires SafeCompletion(rival, Elems(c), ComponentPairs(Elems(c), m.pairs), ComponentHard(m, c, hard))
    ensures SafeCompletion(a, Elems(c), ComponentPairs(Elems(c), m.pairs), ComponentHard(m, c, hard))
    ensures !LexLess(
              Rating(Ascending(Elems(c)), scores, Resumed(a)), Rating(Ascending(Elems(c)), scores, Resumed(rival)))
  {
    hide ValidCall, CommonThroughput, OptimalAnswer, CallFor, Rating, LexLess, SafeCompletion, ComponentHard, UnavailableIn,
      GroupOf, OrderedPairs, ComponentPairs, Ascending, Elems, Resumed, Decode, SolvedOptimally, PartByObjective;
    var resumed := OptimalAnswerIsDecided(cfg, m, c, scores, hard, solver, a, reward);
    OptimalAnswerIsLexicographicallyBest(c, m, scores, ComponentHard(m, c, hard), resumed, reward, rival);
  }

  /** An optimal answer that pauses a component throughout leaves nothing to repair. */
  lemma OptimalIsNotRepaired(
    m: ConflictModel, c: seq<RobotId>, priorities: Priorities, hard: Assignment, resumed: set<RobotId>, reward: int
  )
    requires OrderedPairs(m.pairs, m.snapshots.Keys) && ValidCall(c, m, priorities, ComponentHard(m, c, hard))
    requires (forall r | r in hard :: hard[r] == Resume) && GroupOf(c, hard) !! UnavailableIn(m, c)
    requires CommonThroughput(Ascending(Elems(c)), priorities, reward)
    requires OptimalAnswer(CallFor(c, m, priorities, ComponentHard(m, c, hard)), resumed)
    requires AllPause(Decode(Elems(c), resumed))
    ensures !CanProgress(Elems(c), ComponentPairs(Elems(c), m.pairs), RepairHard(m, c, hard))
  {
    hide ValidCall, CommonThroughput, OptimalAnswer, CallFor, Rating, LexLess, PairsSafe, ComponentHard, RepairHard,
      UnavailableIn, GroupOf, OrderedPairs, ComponentPairs, Ascending, Resumed, Decode;
    var (ids, pairs, own) := (Elems(c), ComponentPairs(Elems(c), m.pairs), ComponentHard(m, c, hard));
    var b := Decode(ids, resumed);
    forall moving | SafeCompletion(moving, ids, pairs, own) && HasResume(moving)
      ensures false
    {
      OptimalAnswerIsLexicographicallyBest(c, m, priorities, own, resumed, reward, moving);
      ValidCallIsScored(c, m, priorities, own);
      MovingBeatsPaused(Ascending(ids), priorities, b, moving);
    }
    OptimalIsCompletion(c, m, priorities, own, resumed);
    PausedGroupIsEmpty(m, c, hard, b);
  }

  lemma OptimalIsCompletion(
    c: seq<RobotId>, m: ConflictModel, priorities: Priorities, hard: Assignment, resumed: set<RobotId>
  )
    requires ValidCall(c, m, priorities, hard) && OptimalAnswer(CallFor(c, m, priorities, hard), resumed)
    ensures Extends(Decode(Elems(c), resumed), hard)
  {
    hide ValidCall;
  }
}
