/** Scoring every component and proposing actions for the whole fleet. */
module Proposals {
  import opened Basics
  import opened Components
  import opened Conflicts
  import opened Decomposition
  import opened Fairness
  import opened GrantManagement
  import opened GrantRules
  import opened Heuristic
  import opened Models
  import opened Objective
  import opened Optimiser
  import opened Priority
  import opened TickSafety

  // ---------------------------------------------------------------- priorities

  /** The breakdown a robot gets inside its component. */
  function ScoreIn(
    m: ConflictModel, c: seq<RobotId>, r: RobotId, cfg: Config, nowMs: int, ages: Ages, grants: GrantTable
  ): Result<PriorityBreakdown>
    requires cfg.Valid() && r in m.snapshots
  {
    ScoreRobot(
      m.snapshots[r], ComponentPairs(Elems(c), m.pairs), cfg, nowMs, AgeOf(ages, r), r in grants, |c|
    )
  }

  /** What is known about a score whatever the robot's history. */
  predicate ScoreWithin(p: PriorityBreakdown, r: RobotId, size: int, cfg: Config) {
    && p.robotId == r
    && 1 <= p.finalScore <= (size + 1) * MaximumPerRobot(size, cfg) + 1
    && p.finalScore == p.throughputReward + p.secondaryScore
    && 0 <= p.secondaryScore <= MaximumPerRobot(size, cfg)
    && p.throughputReward == size * MaximumPerRobot(size, cfg) + 1
  }

  /** The robots of the first `n` components have their scores. */
  ghost predicate ScoredUpTo(
    m: ConflictModel, scores: Priorities, n: nat, cfg: Config, nowMs: int, ages: Ages, grants: GrantTable
  )
    requires cfg.Valid()
  {
    && n <= |m.components|
    && (forall r :: r in scores <==> InSome(m.components[..n], r))
    && forall k | 0 <= k < n :: ScoredPart(m, m.components[k], scores, cfg, nowMs, ages, grants)
  }

  ghost predicate ScoredPart(
    m: ConflictModel, c: seq<RobotId>, scores: Priorities, cfg: Config, nowMs: int, ages: Ages, grants: GrantTable
  )
    requires cfg.Valid()
  {
    forall r | r in c ::
      r in m.snapshots && r in scores
      && ScoreIn(m, c, r, cfg, nowMs, ages, grants) == Ok(scores[r])
      && ScoreWithin(scores[r], r, |c|, cfg)
  }

  lemma ScoreOfMember(
    m: ConflictModel, c: seq<RobotId>, r: RobotId, cfg: Config, nowMs: int, ages: Ages, grants: GrantTable
  )
    requires cfg.Valid() && nowMs >= 0 && IdsMatch(m.snapshots) && OrderedPairs(m.pairs, m.snapshots.Keys)
    requires PairsSorted(m.pairs) && IsComponent(m, c) && r in c && AgeOf(ages, r) >= 0
    ensures var s := ScoreIn(m, c, r, cfg, nowMs, ages, grants);
            s.Ok? && ScoreWithin(s.value, r, |c|, cfg)
  {
    hide IsConflictComponent;
    AscendingSize(c);
    PairsWithinComponent(m, c);
    ComponentPairsSorted(Elems(c), m.pairs);
    assert r in m.snapshots && m.snapshots[r].id == r;
    hide IsComponent, OrderedPairs, PairsSorted, IdsMatch, ComponentPairs, MaximumPerRobot, ScoreRobot;
    ScoringNeverRaises(
      m.snapshots[r], Elems(c), ComponentPairs(Elems(c), m.pairs), cfg, nowMs, AgeOf(ages, r), r in grants
    );
    RewardArithmetic(|c|, MaximumPerRobot(|c|, cfg));
    MaximumNonNegative(|c|, cfg);
  }

  lemma RewardArithmetic(size: int, perRobot: int)
    ensures size * perRobot + 1 + perRobot == (size + 1) * perRobot + 1
    ensures size >= 0 && perRobot >= 0 ==> size * perRobot >= 0
  {
  }

  lemma MaximumNonNegative(size: int, cfg: Config)
    requires cfg.Valid() && size >= 1
    ensures MaximumPerRobot(size, cfg) >= 0
  {
    ProductBound(0, cfg.waitingAgeCap, cfg.waitingBonusPerTick);
    ProductBound(0, size - 1, cfg.clearanceBonusPerConflict);
  }

  lemma AscendingSize(c: seq<RobotId>)
    requires StrictlyAscending(c)
    ensures |Elems(c)| == |c| && Distinct(c)
  {
    assert Distinct(c);
    DistinctCardinality(c);
  }

  /** Score one component. */
  method ScoreComponent(
    m: ConflictModel, c: seq<RobotId>, cfg: Config, nowMs: int, ages: Ages, grants: GrantTable
  )
    returns (scores: Priorities)
    requires cfg.Valid() && nowMs >= 0 && IdsMatch(m.snapshots) && OrderedPairs(m.pairs, m.snapshots.Keys)
    requires PairsSorted(m.pairs) && IsComponent(m, c) && forall r | r in c :: AgeOf(ages, r) >= 0
    ensures scores.Keys == Elems(c) && ScoredPart(m, c, scores, cfg, nowMs, ages, grants)
  {
    forall r | r in c
      ensures r in m.snapshots
      ensures var s := ScoreIn(m, c, r, cfg, nowMs, ages, grants); s.Ok? && ScoreWithin(s.value, r, |c|, cfg)
    {
      ScoreOfMember(m, c, r, cfg, nowMs, ages, grants);
    }
    hide IsComponent, OrderedPairs, PairsSorted, IdsMatch, ScoreIn, ScoreWithin;
    scores := map r | r in c :: ScoreIn(m, c, r, cfg, nowMs, ages, grants).value;
  }

  /** Score all components from explicit time and provisional grant state. */
  method ScorePriorities(m: ConflictModel, cfg: Config, nowMs: int, ages: Ages, grants: GrantTable)
    returns (scores: Priorities)
    requires cfg.Valid() && nowMs >= 0 && IdsMatch(m.snapshots) && Usable(m) && PairsSorted(m.pairs)
    requires forall r | r in ages :: ages[r] >= 0
    ensures ScoredUpTo(m, scores, |m.components|, cfg, nowMs, ages, grants)
    ensures PrioritiesMatch(m, scores)
  {
    scores := map[];
    for k := 0 to |m.components|
      invariant ScoredUpTo(m, scores, k, cfg, nowMs, ages, grants)
    {
      hide OrderedPairs, PairsSorted, IdsMatch, IsComponent, ScoreIn, ScoreWithin, ScoredUpTo, InSome;
      var part := ScoreComponent(m, m.components[k], cfg, nowMs, ages, grants);
      ScoreNext(m, scores, k, cfg, nowMs, ages, grants, part);
      scores := scores + part;
    }
    AllScored(m, scores, cfg, nowMs, ages, grants);
  }

  lemma ScoreNext(
    m: ConflictModel, scores: Priorities, n: nat, cfg: Config, nowMs: int, ages: Ages, grants: GrantTable,
    part: Priorities
  )
    requires cfg.Valid() && DisjointParts(m.components) && n < |m.components|
    requires ScoredUpTo(m, scores, n, cfg, nowMs, ages, grants)
    requires part.Keys == Elems(m.components[n]) && ScoredPart(m, m.components[n], part, cfg, nowMs, ages, grants)
    ensures ScoredUpTo(m, scores + part, n + 1, cfg, nowMs, ages, grants)
  {
    hide ScoreIn, ScoreWithin, ScoredPart, InSome, DisjointParts;
    NextPart(m.components, n);
    forall k | 0 <= k < n
      ensures ScoredPart(m, m.components[k], scores + part, cfg, nowMs, ages, grants)
    {
      PartsAreDisjoint(m.components, n, k);
      EarlierPartKept(m, m.components[k], scores, part, cfg, nowMs, ages, grants);
    }
    NewPartAdded(m, m.components[n], scores, part, cfg, nowMs, ages, grants);
  }

  lemma EarlierPartKept(
    m: ConflictModel, c: seq<RobotId>, scores: Priorities, part: Priorities, cfg: Config, nowMs: int, ages: Ages,
    grants: GrantTable
  )
    requires cfg.Valid() && ScoredPart(m, c, scores, cfg, nowMs, ages, grants) && Elems(c) !! part.Keys
    ensures ScoredPart(m, c, scores + part, cfg, nowMs, ages, grants)
  {
    hide ScoreIn, ScoreWithin;
    assert forall r | r in c :: r in Elems(c);
  }

  lemma NewPartAdded(
    m: ConflictModel, c: seq<RobotId>, scores: Priorities, part: Priorities, cfg: Config, nowMs: int, ages: Ages,
    grants: GrantTable
  )
    requires cfg.Valid() && ScoredPart(m, c, part, cfg, nowMs, ages, grants)
    ensures ScoredPart(m, c, scores + part, cfg, nowMs, ages, grants)
  {
    hide ScoreIn, ScoreWithin;
  }

  lemma AllScored(
    m: ConflictModel, scores: Priorities, cfg: Config, nowMs: int, ages: Ages, grants: GrantTable
  )
    requires cfg.Valid() && Usable(m) && ScoredUpTo(m, scores, |m.components|, cfg, nowMs, ages, grants)
    ensures PrioritiesMatch(m, scores)
  {
    hide ScoreIn, OrderedPairs, DisjointParts;
    assert m.components[..|m.components|] == m.components;
    forall r
      ensures r in scores <==> r in m.snapshots
      ensures r in scores ==> scores[r].robotId == r
    {
      if r in scores {
        var k :| 0 <= k < |m.components| && r in m.components[k];
        assert IsComponent(m, m.components[k]);
        assert ScoredPart(m, m.components[k], scores, cfg, nowMs, ages, grants);
      }
    }
  }

  /** Within a scored component, all secondary scores together stay below the common throughput reward. */
  lemma ScoresShareThroughput(
    m: ConflictModel, c: seq<RobotId>, scores: Priorities, cfg: Config, nowMs: int, ages: Ages, grants: GrantTable
  )
    requires cfg.Valid() && ScoredPart(m, c, scores, cfg, nowMs, ages, grants) && c != []
    ensures CommonThroughput(c, scores, |c| * MaximumPerRobot(|c|, cfg) + 1)
  {
    hide ScoreIn, MaximumPerRobot, Total;
    MaximumNonNegative(|c|, cfg);
    TotalBelow(c, Elems(c), SecondaryScores(c, scores), MaximumPerRobot(|c|, cfg));
  }

  // ---------------------------------------------------------------- proposals

  /** Retained Resume grants of a component, overridden by Pauses of unavailable robots. */
  function ComponentHard(m: ConflictModel, c: seq<RobotId>, hard: Assignment): Assignment {
    Restrict(hard, Elems(c)) + PauseAll(UnavailableIn(m, c))
  }

  /** The two ways of combining hard actions agree, because retained grants are available robots. */
  lemma ComponentHardIsGroupHard(m: ConflictModel, c: seq<RobotId>, hard: Assignment)
    requires forall r | r in hard :: hard[r] == Resume
    requires GroupOf(c, hard) !! UnavailableIn(m, c)
    ensures ComponentHard(m, c, hard) == GroupHard(m, c, GroupOf(c, hard))
  {
  }

  /** The greedily best safe completion under the hard actions, or all Pause when there is none. */
  ghost predicate IsHeuristicChoice(
    m: ConflictModel, c: seq<RobotId>, priorities: Priorities, hard: Assignment, a: Assignment
  ) {
    var (ids, pairs) := (Elems(c), ComponentPairs(Elems(c), m.pairs));
    && Scored(Ascending(ids), priorities)
    && if IsCompletable(ids, pairs, hard) then
         IsBestCompletion(a, Ranking(ids, priorities), ids, pairs, hard)
       else
         a == PauseAll(ids)
  }

  /** The exact solver's answer when it is consulted and has one, and the heuristic's choice otherwise. */
  ghost predicate IsChoice(
    cfg: Config, m: ConflictModel, c: seq<RobotId>, priorities: Priorities, hard: Assignment, solver: Option<Solver>,
    a: Assignment
  )
    requires ValidCall(c, m, priorities, hard)
  {
    var call := CallFor(c, m, priorities, hard);
    if Consulted(cfg, c, solver) && solver.value(call).Some? then
      Some(a) == DecodedAnswer(call, solver.value(call))
    else
      IsHeuristicChoice(m, c, priorities, hard, a)
  }

  /** The solver is consulted for the component and its answer breaks the model it was given. */
  ghost predicate RejectedPart(
    cfg: Config, m: ConflictModel, c: seq<RobotId>, priorities: Priorities, hard: Assignment, solver: Option<Solver>
  ) {
    && ValidCall(c, m, priorities, ComponentHard(m, c, hard)) && Consulted(cfg, c, solver)
    && var call := CallFor(c, m, priorities, ComponentHard(m, c, hard));
       !HonestAnswer(call, solver.value(call))
  }

  lemma RejectedIsDishonest(
    cfg: Config, m: ConflictModel, c: seq<RobotId>, priorities: Priorities, hard: Assignment, solver: Option<Solver>
  )
    requires RejectedPart(cfg, m, c, priorities, hard, solver)
    ensures !Honest(solver)
  {
    hide HonestAnswer, CallFor, ValidCall;
  }

  /** Propose what the heuristic finds, or Pause the component. */
  method ProposeHeuristically(cfg: Config, m: ConflictModel, c: seq<RobotId>, priorities: Priorities, hard: Assignment)
    returns (r: Result<Assignment>)
    requires OrderedPairs(m.pairs, m.snapshots.Keys) && IsComponent(m, c) && PrioritiesMatch(m, priorities)
    requires forall x | x in hard :: hard[x] == Resume
    requires GroupOf(c, hard) !! UnavailableIn(m, c)
    ensures r.Ok? ==> ProposedPart(m, c, GroupOf(c, hard), r.value) && !OverflowsOn(Elems(c), priorities)
    ensures r.Ok? ==> r.value.Keys == Elems(c)
    ensures r.Ok? ==> IsHeuristicChoice(m, c, priorities, ComponentHard(m, c, hard), r.value)
    ensures r.Raised? ==> r.error == ObjectiveOverflow && OverflowsOn(Elems(c), priorities)
  {
    hide OrderedPairs, OverflowsOn, Scored, DecidesExactly, ProposedPart, PrioritiesMatch, IsComponent, ValidCall,
      IsHeuristicChoice;
    var componentHard := ComponentHard(m, c, hard);
    ComponentHardIsGroupHard(m, c, hard);
    ProposalCallIsValid(m, c, priorities, componentHard);
    var fallback := Solve(cfg, c, m, priorities, componentHard);
    if fallback.Raised? {
      return Raised(ObjectiveOverflow);
    }
    DecidedProgress(fallback.value, Elems(c), ComponentPairs(Elems(c), m.pairs), componentHard, priorities);
    DecidedChoice(fallback.value, m, c, priorities, componentHard);
    if fallback.value.feasible {
      CompletionIsProposal(m, c, GroupOf(c, hard), fallback.value.decisions);
      return Ok(fallback.value.decisions);
    }
    NothingIsProposal(m, c, GroupOf(c, hard));
    r := Ok(PauseAll(Elems(c)));
  }

  /** Propose actions for one conflict component: exact solver first, heuristic as fallback. */
  method ProposeComponent(
    cfg: Config, m: ConflictModel, c: seq<RobotId>, priorities: Priorities, hard: Assignment, solver: Option<Solver>
  )
    returns (r: Result<Assignment>)
    requires OrderedPairs(m.pairs, m.snapshots.Keys) && IsComponent(m, c) && PrioritiesMatch(m, priorities)
    requires forall x | x in hard :: hard[x] == Resume
    requires GroupOf(c, hard) !! UnavailableIn(m, c)
    ensures r.Ok? ==> ProposedPart(m, c, GroupOf(c, hard), r.value) && !OverflowsOn(Elems(c), priorities)
    ensures r.Ok? ==> r.value.Keys == Elems(c)
    ensures r.Ok? ==> ValidCall(c, m, priorities, ComponentHard(m, c, hard))
                      && IsChoice(cfg, m, c, priorities, ComponentHard(m, c, hard), solver, r.value)
    ensures r == Raised(ObjectiveOverflow) <==> OverflowsOn(Elems(c), priorities)
    ensures r == Raised(UnsafeResult) <==>
              !OverflowsOn(Elems(c), priorities) && RejectedPart(cfg, m, c, priorities, hard, solver)
    ensures r.Raised? ==> r.error == ObjectiveOverflow || r.error == UnsafeResult
  {
    hide OrderedPairs, OverflowsOn, HonestAnswer, Scored, DecidesExactly, ProposedPart, PrioritiesMatch, IsComponent, ValidCall,
      CallFor, IsHeuristicChoice, PairsSafe;
    var componentHard := ComponentHard(m, c, hard);
    ComponentHardIsGroupHard(m, c, hard);
    ProposalCallIsValid(m, c, priorities, componentHard);
    if |c| <= cfg.maximumExactComponentSize {
      var exact := Optimise(cfg, c, m, priorities, componentHard, solver);
      if exact.Raised? {
        return Raised(exact.error);
      }
      if exact.value.Some? {
        CompletionIsProposal(m, c, GroupOf(c, hard), exact.value.value);
        return Ok(exact.value.value);
      }
    }
    r := ProposeHeuristically(cfg, m, c, priorities, hard);
  }

  lemma DecidedChoice(
    h: HeuristicResult, m: ConflictModel, c: seq<RobotId>, priorities: Priorities, hard: Assignment
  )
    requires Scored(Ascending(Elems(c)), priorities)
    requires DecidesExactly(h, Elems(c), ComponentPairs(Elems(c), m.pairs), hard, priorities)
    ensures IsHeuristicChoice(m, c, priorities, hard, if h.feasible then h.decisions else PauseAll(Elems(c)))
  {
    hide IsBestCompletion, IsCompletable, CanProgress;
  }

  lemma ProposalCallIsValid(m: ConflictModel, c: seq<RobotId>, priorities: Priorities, hard: Assignment)
    requires IsComponent(m, c) && PrioritiesMatch(m, priorities) && hard.Keys <= Elems(c)
    ensures ValidCall(c, m, priorities, hard)
  {
  }

  lemma CompletionIsProposal(m: ConflictModel, c: seq<RobotId>, group: set<RobotId>, a: Assignment)
    requires group <= Elems(c) && group !! UnavailableIn(m, c)
    requires SafeCompletion(a, Elems(c), ComponentPairs(Elems(c), m.pairs), GroupHard(m, c, group))
    ensures ProposedPart(m, c, group, a) && a.Keys == Elems(c)
  {
    GroupHardMeansCompletion(m, c, a, group);
  }

  lemma NothingIsProposal(m: ConflictModel, c: seq<RobotId>, group: set<RobotId>)
    requires group <= Elems(c) && group !! UnavailableIn(m, c)
    requires !IsCompletable(Elems(c), ComponentPairs(Elems(c), m.pairs), GroupHard(m, c, group))
    ensures ProposedPart(m, c, group, PauseAll(Elems(c)))
  {
    hide SafeCompletion, Completion;
    forall a
      ensures !Completion(m, c, a, group)
    {
      GroupHardMeansCompletion(m, c, a, group);
    }
  }

  /** Proposals after the first `n` components: policy for isolated robots, solver results for
      conflict components. */
  ghost predicate ProposedUpTo(m: ConflictModel, hard: Assignment, proposed: Assignment, n: nat) {
    && n <= |m.components|
    && proposed.Keys <= m.snapshots.Keys
    && (forall r | r in m.isolated :: FollowsPolicy(m, proposed, r))
    && forall k | 0 <= k < n && IsConflictComponent(m, m.components[k]) :: ProposedComponent(m, k, hard, proposed)
  }

  ghost predicate ProposedComponent(m: ConflictModel, k: nat, hard: Assignment, proposed: Assignment)
    requires k < |m.components|
  {
    var c := m.components[k];
    var a := Restrict(proposed, Elems(c));
    a.Keys == Elems(c) && ProposedPart(m, c, GroupOf(c, hard), a)
  }

  /** An admissible proposal for the whole fleet. */
  ghost predicate IsProposal(m: ConflictModel, hard: Assignment, proposed: Assignment) {
    && proposed.Keys == m.snapshots.Keys
    && ProposedUpTo(m, hard, proposed, |m.components|)
  }

  lemma ProposeNext(m: ConflictModel, hard: Assignment, proposed: Assignment, n: nat, part: Assignment)
    requires Usable(m) && IsolatedHaveNoConflict(m)
    requires ProposedUpTo(m, hard, proposed, n) && n < |m.components| && IsConflictComponent(m, m.components[n])
    requires part.Keys == Elems(m.components[n])
    requires ProposedPart(m, m.components[n], GroupOf(m.components[n], hard), part)
    ensures ProposedUpTo(m, hard, proposed + part, n + 1)
  {
    hide ProposedPart, IsConflictComponent, IsComponent, OrderedPairs, IsolatedHaveNoConflict, FollowsPolicy, GroupOf,
      InSome;
    PolicyKept(m, proposed, n, part);
    OverrideRestricts(proposed, part, Elems(m.components[n]));
    forall k | 0 <= k < n && IsConflictComponent(m, m.components[k])
      ensures ProposedComponent(m, k, hard, proposed + part)
    {
      PartsAreDisjoint(m.components, n, k);
      OverrideRestricts(proposed, part, Elems(m.components[k]));
      assert ProposedComponent(m, k, hard, proposed);
    }
    assert ProposedComponent(m, n, hard, proposed + part);
  }

  lemma PolicyKept(m: ConflictModel, proposed: Assignment, n: nat, part: Assignment)
    requires Usable(m) && IsolatedHaveNoConflict(m) && n < |m.components| && IsConflictComponent(m, m.components[n])
    requires part.Keys == Elems(m.components[n])
    ensures part.Keys <= m.snapshots.Keys
    ensures forall r | r in m.isolated :: FollowsPolicy(m, proposed, r) ==> FollowsPolicy(m, proposed + part, r)
  {
    hide OrderedPairs, DisjointParts, InSome;
    assert IsComponent(m, m.components[n]);
    assert part.Keys <= m.snapshots.Keys;
    assert forall r | r in m.isolated :: r !in part;
  }

  lemma ProposeSkips(m: ConflictModel, hard: Assignment, proposed: Assignment, n: nat)
    requires Usable(m) && IsolatedHaveNoConflict(m)
    requires ProposedUpTo(m, hard, proposed, n) && n < |m.components|
    requires |m.components[n]| == 1 && m.components[n][0] in m.isolated
    ensures ProposedUpTo(m, hard, proposed, n + 1)
  {
    hide ProposedComponent, OrderedPairs;
    assert !IsConflictComponent(m, m.components[n]);
  }

  lemma NotSkippedIsConflict(m: ConflictModel, n: nat)
    requires Usable(m) && IsolatedHaveNoConflict(m) && n < |m.components|
    requires !(|m.components[n]| == 1 && m.components[n][0] in m.isolated)
    ensures IsConflictComponent(m, m.components[n])
  {
    var c := m.components[n];
    assert IsComponent(m, c);
    assert c[0] in c;
  }

  lemma AllProposed(m: ConflictModel, hard: Assignment, proposed: Assignment)
    requires Usable(m) && IsolatedHaveNoConflict(m) && ProposedUpTo(m, hard, proposed, |m.components|)
    ensures IsProposal(m, hard, proposed)
  {
    hide ProposedPart, OrderedPairs, DisjointParts;
    forall r | r in m.snapshots
      ensures r in proposed
    {
      assert InSome(m.components, r);
      var k :| 0 <= k < |m.components| && r in m.components[k];
      assert IsComponent(m, m.components[k]);
      if IsConflictComponent(m, m.components[k]) {
        assert ProposedComponent(m, k, hard, proposed);
        assert r in Restrict(proposed, Elems(m.components[k]));
      } else {
        assert r in m.isolated;
      }
    }
  }

  /** Select actions for isolated robots. */
  method ProposeIsolated(m: ConflictModel, ghost hard: Assignment) returns (proposed: Assignment)
    requires IsolatedHaveNoConflict(m)
    ensures ProposedUpTo(m, hard, proposed, 0)
  {
    proposed := map[];
    for n := 0 to |m.isolated|
      invariant proposed.Keys <= m.snapshots.Keys
      invariant forall i | 0 <= i < n :: FollowsPolicy(m, proposed, m.isolated[i])
    {
      var r := m.isolated[n];
      assert r in m.isolated;
      proposed := proposed[r := if m.snapshots[r].stale || m.snapshots[r].atGoal then Pause else Resume];
    }
  }

  /** In the first `n` components, every conflict component has its chosen actions. */
  ghost predicate ChosenUpTo(
    cfg: Config, m: ConflictModel, priorities: Priorities, hard: Assignment, solver: Option<Solver>,
    proposed: Assignment, n: nat
  ) {
    && n <= |m.components|
    && forall k | 0 <= k < n && IsConflictComponent(m, m.components[k]) ::
         IsChosenPart(cfg, m, m.components[k], priorities, hard, solver, Restrict(proposed, Elems(m.components[k])))
  }

  ghost predicate IsChosenPart(
    cfg: Config, m: ConflictModel, c: seq<RobotId>, priorities: Priorities, hard: Assignment, solver: Option<Solver>,
    a: Assignment
  ) {
    && ValidCall(c, m, priorities, ComponentHard(m, c, hard))
    && IsChoice(cfg, m, c, priorities, ComponentHard(m, c, hard), solver, a)
  }

  lemma ChosenNext(
    cfg: Config, m: ConflictModel, priorities: Priorities, hard: Assignment, solver: Option<Solver>,
    proposed: Assignment, n: nat, part: Assignment
  )
    requires DisjointParts(m.components) && n < |m.components| && part.Keys == Elems(m.components[n])
    requires ChosenUpTo(cfg, m, priorities, hard, solver, proposed, n)
    requires IsChosenPart(cfg, m, m.components[n], priorities, hard, solver, part)
    ensures ChosenUpTo(cfg, m, priorities, hard, solver, proposed + part, n + 1)
  {
    hide IsChosenPart, IsConflictComponent, DisjointParts, Restrict, Elems;
    OverrideRestricts(proposed, part, Elems(m.components[n]));
    forall k | 0 <= k < n && IsConflictComponent(m, m.components[k])
      ensures IsChosenPart(
                cfg, m, m.components[k], priorities, hard, solver, Restrict(proposed + part, Elems(m.components[k])))
    {
      PartsAreDisjoint(m.components, n, k);
      OverrideRestricts(proposed, part, Elems(m.components[k]));
    }
  }

  lemma ChosenSkips(
    cfg: Config, m: ConflictModel, priorities: Priorities, hard: Assignment, solver: Option<Solver>,
    proposed: Assignment, n: nat
  )
    requires ChosenUpTo(cfg, m, priorities, hard, solver, proposed, n)
    requires n < |m.components| && !IsConflictComponent(m, m.components[n])
    ensures ChosenUpTo(cfg, m, priorities, hard, solver, proposed, n + 1)
  {
    hide IsChosenPart, IsConflictComponent;
  }

  lemma NoneChosenYet(
    cfg: Config, m: ConflictModel, priorities: Priorities, hard: Assignment, solver: Option<Solver>, proposed: Assignment
  )
    ensures ChosenUpTo(cfg, m, priorities, hard, solver, proposed, 0)
  {
  }

  /** What proposing relies on: a usable model, matching priorities, and retained Resume grants none
      of which belongs to an unavailable robot. */
  ghost predicate ReadyToPropose(m: ConflictModel, priorities: Priorities, hard: Assignment) {
    && Usable(m) && IsolatedHaveNoConflict(m) && PrioritiesMatch(m, priorities)
    && (forall x | x in hard :: hard[x] == Resume)
    && forall k | 0 <= k < |m.components| :: GroupOf(m.components[k], hard) !! UnavailableIn(m, m.components[k])
  }

  lemma ReadyFacts(m: ConflictModel, priorities: Priorities, hard: Assignment)
    requires ReadyToPropose(m, priorities, hard)
    ensures Usable(m) && IsolatedHaveNoConflict(m)
  {
  }

  /** Handle one component of the fleet. */
  method ProposeOne(
    cfg: Config, m: ConflictModel, k: nat, priorities: Priorities, hard: Assignment, solver: Option<Solver>,
    proposed: Assignment
  )
    returns (r: Result<Assignment>)
    requires ReadyToPropose(m, priorities, hard) && k < |m.components|
    requires ProposedUpTo(m, hard, proposed, k) && !SomeOverflow(m, priorities, k)
    requires ChosenUpTo(cfg, m, priorities, hard, solver, proposed, k)
    requires !SomeRejected(cfg, m, priorities, hard, solver, k)
    ensures r.Ok? ==> ProposedUpTo(m, hard, r.value, k + 1) && !SomeOverflow(m, priorities, k + 1)
    ensures r.Ok? ==> ChosenUpTo(cfg, m, priorities, hard, solver, r.value, k + 1)
    ensures r.Ok? ==> !SomeRejected(cfg, m, priorities, hard, solver, k + 1)
    ensures r.Raised? ==>
      || (r.error == ObjectiveOverflow && SomeOverflow(m, priorities, |m.components|))
      || (r.error == UnsafeResult && SomeRejected(cfg, m, priorities, hard, solver, |m.components|))
  {
    hide OrderedPairs, IsComponent, DisjointParts, InSome, ProposedUpTo, OverflowsOn, RejectedPart, SomeRejected, PrioritiesMatch,
      IsolatedHaveNoConflict, ProposedPart, UnavailableIn, GroupOf, IsConflictComponent, SomeOverflow, ChosenUpTo, IsChoice,
      ComponentHard, ValidCall;
    var c := m.components[k];
    if |c| == 1 && c[0] in m.isolated {
      ProposeSkips(m, hard, proposed, k);
      SkippedIsNoConflict(m, c);
      ChosenSkips(cfg, m, priorities, hard, solver, proposed, k);
      SkippedDoesNotOverflow(m, c, priorities);
      OverflowNext(m, priorities, k);
      RejectedNext(cfg, m, priorities, hard, solver, k);
      return Ok(proposed);
    }
    NotSkippedIsConflict(m, k);
    var part := ProposeComponent(cfg, m, c, priorities, hard, solver);
    if part.Raised? {
      if part.error == ObjectiveOverflow {
        OverflowFound(m, priorities, k);
      } else {
        RejectedFound(cfg, m, priorities, hard, solver, k);
      }
      return Raised(part.error);
    }
    ProposeNext(m, hard, proposed, k, part.value);
    ChosenNext(cfg, m, priorities, hard, solver, proposed, k, part.value);
    OverflowNext(m, priorities, k);
    RejectedNext(cfg, m, priorities, hard, solver, k);
    r := Ok(proposed + part.value);
  }

  /** Select deterministic actions for isolated robots and conflict components. */
  method SolveComponents(
    cfg: Config, m: ConflictModel, priorities: Priorities, hard: Assignment, solver: Option<Solver>
  )
    returns (r: Result<Assignment>)
    requires ReadyToPropose(m, priorities, hard)
    ensures r.Ok? ==> IsProposal(m, hard, r.value) && !SomeOverflow(m, priorities, |m.components|)
    ensures r.Ok? ==> ChosenUpTo(cfg, m, priorities, hard, solver, r.value, |m.components|)
    ensures r.Ok? ==> !SomeRejected(cfg, m, priorities, hard, solver, |m.components|)
    ensures r.Raised? ==>
      || (r.error == ObjectiveOverflow && SomeOverflow(m, priorities, |m.components|))
      || (r.error == UnsafeResult && SomeRejected(cfg, m, priorities, hard, solver, |m.components|))
  {
    hide ReadyToPropose, Usable, SomeRejected, ProposedUpTo, SomeOverflow, IsolatedHaveNoConflict, IsProposal, ChosenUpTo;
    ReadyFacts(m, priorities, hard);
    var proposed := ProposeIsolated(m, hard);
    NoOverflowYet(m, priorities);
    NoneRejectedYet(cfg, m, priorities, hard, solver);
    NoneChosenYet(cfg, m, priorities, hard, solver, proposed);
    for k := 0 to |m.components|
      invariant ProposedUpTo(m, hard, proposed, k) && !SomeOverflow(m, priorities, k)
      invariant ChosenUpTo(cfg, m, priorities, hard, solver, proposed, k)
      invariant !SomeRejected(cfg, m, priorities, hard, solver, k)
    {
      var next := ProposeOne(cfg, m, k, priorities, hard, solver, proposed);
      if next.Raised? {
        return Raised(next.error);
      }
      proposed := next.value;
    }
    AllProposed(m, hard, proposed);
    r := Ok(proposed);
  }

  /** One of the first `n` components overflows. */
  ghost predicate SomeOverflow(m: ConflictModel, priorities: Priorities, n: nat) {
    n <= |m.components| && exists k | 0 <= k < n :: OverflowingPart(m, m.components[k], priorities)
  }

  lemma NoOverflowYet(m: ConflictModel, priorities: Priorities)
    ensures !SomeOverflow(m, priorities, 0)
  {
  }

  lemma OverflowNext(m: ConflictModel, priorities: Priorities, n: nat)
    requires n < |m.components| && !SomeOverflow(m, priorities, n) && !OverflowingPart(m, m.components[n], priorities)
    ensures !SomeOverflow(m, priorities, n + 1)
  {
    hide OverflowingPart;
  }

  lemma OverflowFound(m: ConflictModel, priorities: Priorities, n: nat)
    requires n < |m.components| && OverflowingPart(m, m.components[n], priorities)
    ensures SomeOverflow(m, priorities, |m.components|)
  {
    hide OverflowingPart;
  }

  /** The solver's answer for one of the first `n` conflict components is rejected. */
  ghost predicate SomeRejected(
    cfg: Config, m: ConflictModel, priorities: Priorities, hard: Assignment, solver: Option<Solver>, n: nat
  ) {
    && n <= |m.components|
    && exists k | 0 <= k < n :: RejectedConflict(cfg, m, m.components[k], priorities, hard, solver)
  }

  ghost predicate RejectedConflict(
    cfg: Config, m: ConflictModel, c: seq<RobotId>, priorities: Priorities, hard: Assignment, solver: Option<Solver>
  ) {
    IsConflictComponent(m, c) && RejectedPart(cfg, m, c, priorities, hard, solver)
  }

  lemma NoneRejectedYet(
    cfg: Config, m: ConflictModel, priorities: Priorities, hard: Assignment, solver: Option<Solver>
  )
    ensures !SomeRejected(cfg, m, priorities, hard, solver, 0)
  {
  }

  lemma RejectedNext(
    cfg: Config, m: ConflictModel, priorities: Priorities, hard: Assignment, solver: Option<Solver>, n: nat
  )
    requires n < |m.components| && !SomeRejected(cfg, m, priorities, hard, solver, n)
    requires !IsConflictComponent(m, m.components[n]) || !RejectedPart(cfg, m, m.components[n], priorities, hard, solver)
    ensures !SomeRejected(cfg, m, priorities, hard, solver, n + 1)
  {
    hide IsConflictComponent, RejectedPart;
  }

  lemma RejectedFound(
    cfg: Config, m: ConflictModel, priorities: Priorities, hard: Assignment, solver: Option<Solver>, n: nat
  )
    requires n < |m.components| && IsConflictComponent(m, m.components[n])
    requires RejectedPart(cfg, m, m.components[n], priorities, hard, solver)
    ensures SomeRejected(cfg, m, priorities, hard, solver, |m.components|)
  {
    hide IsConflictComponent, RejectedPart;
    assert RejectedConflict(cfg, m, m.components[n], priorities, hard, solver);
  }

  lemma SkippedIsNoConflict(m: ConflictModel, c: seq<RobotId>)
    requires |c| == 1
    ensures !IsConflictComponent(m, c)
  {
  }

  lemma SkippedDoesNotOverflow(m: ConflictModel, c: seq<RobotId>, priorities: Priorities)
    requires |c| == 1
    ensures !OverflowingPart(m, c, priorities)
  {
  }
}
