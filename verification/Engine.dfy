/** The decision engine: one grant-aware tick, reviewed by an independent all-pairs validator and
    committed as a transaction. */
module Engine {
  import opened Basics
  import opened Conflicts
  import opened Decomposition
  import opened Fairness
  import opened FleetOptimum
  import opened Geometry
  import opened GrantManagement
  import opened GrantRules
  import opened Models
  import opened Objective
  import opened Optimiser
  import opened Proposals
  import opened TickObjective
  import opened TickOutcome
  import opened TickSafety

  // ---------------------------------------------------------------- independent validation

  /** One final pair of action envelopes that meet. */
  datatype Violation = Violation(robotI: RobotId, actionI: Action, robotJ: RobotId, actionJ: Action)

  predicate Conflicting(m: ConflictModel, k: Kernel, decisions: Assignment, i: RobotId, j: RobotId)
    requires i in m.snapshots && j in m.snapshots && i in decisions && j in decisions
  {
    k.intersects(Envelope(k, m.snapshots[i], decisions[i]), Envelope(k, m.snapshots[j], decisions[j]))
  }

  function ViolationOf(decisions: Assignment, i: RobotId, j: RobotId): Violation
    requires i in decisions && j in decisions
  {
    Violation(i, decisions[i], j, decisions[j])
  }

  predicate ViolationBefore(v: Violation, w: Violation) {
    v.robotI < w.robotI || (v.robotI == w.robotI && v.robotJ < w.robotJ)
  }

  predicate InRobotOrder(found: seq<Violation>) {
    forall k, l | 0 <= k < l < |found| :: ViolationBefore(found[k], found[l])
  }

  /** The violation concerns row `x` and column `y`, which come before row `a` and column `b`. */
  predicate FoundAt(v: Violation, ordered: seq<RobotId>, x: int, y: int, a: nat, b: nat) {
    0 <= x < y < |ordered| && v.robotI == ordered[x] && v.robotJ == ordered[y] && (x < a || (x == a && y < b))
  }

  predicate FoundBefore(v: Violation, ordered: seq<RobotId>, a: nat, b: nat) {
    exists x, y | 0 <= x < |ordered| && 0 <= y < |ordered| :: FoundAt(v, ordered, x, y, a, b)
  }

  /** The violations found so far, when row `a` has been compared up to column `b`. */
  ghost predicate ViolationsUpTo(
    m: ConflictModel, k: Kernel, decisions: Assignment, ordered: seq<RobotId>, found: seq<Violation>, a: nat, b: nat
  )
    requires decisions.Keys == m.snapshots.Keys && Elems(ordered) == m.snapshots.Keys
  {
    && InRobotOrder(found)
    && (forall v | v in found :: IsViolation(m, k, decisions, v) && FoundBefore(v, ordered, a, b))
    && forall x, y | 0 <= x < y < |ordered| && (x < a || (x == a && y < b)) ::
         RowOk(m, k, decisions, ordered[x], ordered[y], found)
  }

  ghost predicate IsViolation(m: ConflictModel, k: Kernel, decisions: Assignment, v: Violation)
    requires decisions.Keys == m.snapshots.Keys
  {
    && v.robotI in m.snapshots && v.robotJ in m.snapshots && v.robotI < v.robotJ
    && v == ViolationOf(decisions, v.robotI, v.robotJ)
    && Conflicting(m, k, decisions, v.robotI, v.robotJ)
  }

  ghost predicate RowOk(
    m: ConflictModel, k: Kernel, decisions: Assignment, i: RobotId, j: RobotId, found: seq<Violation>
  )
    requires decisions.Keys == m.snapshots.Keys
  {
    && i in m.snapshots && j in m.snapshots
    && (Conflicting(m, k, decisions, i, j) ==> ViolationOf(decisions, i, j) in found)
  }

  /** Exactly the pairs whose envelopes meet, each once and in robot order. */
  ghost predicate AllViolations(m: ConflictModel, k: Kernel, decisions: Assignment, found: seq<Violation>) {
    && decisions.Keys == m.snapshots.Keys
    && InRobotOrder(found)
    && (forall v | v in found :: IsViolation(m, k, decisions, v))
    && forall i, j | i in m.snapshots && j in m.snapshots && i < j :: RowOk(m, k, decisions, i, j, found)
  }

  /** Rebuild and compare every envelope, independently of graph, clauses and solvers. */
  method ValidateGlobalSafety(m: ConflictModel, k: Kernel, decisions: Assignment) returns (r: Result<seq<Violation>>)
    ensures r == Raised(InvalidInput) <==> decisions.Keys != m.snapshots.Keys
    ensures r.Raised? ==> r.error == InvalidInput
    ensures r.Ok? ==> AllViolations(m, k, decisions, r.value)
  {
    hide Conflicting, ViolationsUpTo, AllViolations, Ascending, StrictlyAscending, Elems;
    if decisions.Keys != m.snapshots.Keys {
      return Raised(InvalidInput);
    }
    var ordered := Ascending(m.snapshots.Keys);
    var found: seq<Violation> := [];
    NothingCompared(m, k, decisions, ordered);
    for a := 0 to |ordered|
      invariant ViolationsUpTo(m, k, decisions, ordered, found, a, a + 1)
    {
      found := ValidateRow(m, k, decisions, ordered, found, a);
    }
    AllRowsCompared(m, k, decisions, ordered, found);
    r := Ok(found);
  }

  lemma NothingCompared(m: ConflictModel, k: Kernel, decisions: Assignment, ordered: seq<RobotId>)
    requires decisions.Keys == m.snapshots.Keys && Elems(ordered) == m.snapshots.Keys
    ensures ViolationsUpTo(m, k, decisions, ordered, [], 0, 1)
  {
  }

  method ValidateRow(
    m: ConflictModel, k: Kernel, decisions: Assignment, ordered: seq<RobotId>, before: seq<Violation>, a: nat
  )
    returns (found: seq<Violation>)
    requires decisions.Keys == m.snapshots.Keys && Elems(ordered) == m.snapshots.Keys && StrictlyAscending(ordered)
    requires a < |ordered| && ViolationsUpTo(m, k, decisions, ordered, before, a, a + 1)
    ensures ViolationsUpTo(m, k, decisions, ordered, found, a + 1, a + 2)
  {
    hide Conflicting, ViolationsUpTo, StrictlyAscending;
    found := before;
    for b := a + 1 to |ordered|
      invariant ViolationsUpTo(m, k, decisions, ordered, found, a, b)
    {
      var i, j := ordered[a], ordered[b];
      assert i in Elems(ordered) && j in Elems(ordered);
      PairCompared(m, k, decisions, ordered, found, a, b);
      if Conflicting(m, k, decisions, i, j) {
        found := found + [ViolationOf(decisions, i, j)];
      }
    }
    RowCompared(m, k, decisions, ordered, found, a);
  }

  lemma PairCompared(
    m: ConflictModel, k: Kernel, decisions: Assignment, ordered: seq<RobotId>, found: seq<Violation>, a: nat, b: nat
  )
    requires decisions.Keys == m.snapshots.Keys && Elems(ordered) == m.snapshots.Keys && StrictlyAscending(ordered)
    requires a < b < |ordered| && ordered[a] in decisions && ordered[b] in decisions
    requires ViolationsUpTo(m, k, decisions, ordered, found, a, b)
    ensures var (i, j) := (ordered[a], ordered[b]);
            var grown := if Conflicting(m, k, decisions, i, j) then found + [ViolationOf(decisions, i, j)] else found;
            ViolationsUpTo(m, k, decisions, ordered, grown, a, b + 1)
  {
    hide Conflicting, InRobotOrder, ViolationBefore, FoundBefore;
    var (i, j) := (ordered[a], ordered[b]);
    var last := ViolationOf(decisions, i, j);
    forall v | v in found
      ensures ViolationBefore(v, last) && FoundBefore(v, ordered, a, b + 1)
    {
      EarlierViolation(v, ordered, a, b, last);
    }
    LastViolation(last, ordered, a, b);
    AppendViolation(found, last);
    var grown := if Conflicting(m, k, decisions, i, j) then found + [last] else found;
    forall x, y | 0 <= x < y < |ordered| && (x < a || (x == a && y < b + 1))
      ensures RowOk(m, k, decisions, ordered[x], ordered[y], grown)
    {
      if !(x == a && y == b) {
        assert RowOk(m, k, decisions, ordered[x], ordered[y], found);
      }
    }
  }

  lemma LastViolation(last: Violation, ordered: seq<RobotId>, a: nat, b: nat)
    requires a < b < |ordered| && last.robotI == ordered[a] && last.robotJ == ordered[b]
    ensures FoundBefore(last, ordered, a, b + 1)
  {
    assert FoundAt(last, ordered, a, b, a, b + 1);
  }

  lemma EarlierViolation(v: Violation, ordered: seq<RobotId>, a: nat, b: nat, last: Violation)
    requires StrictlyAscending(ordered) && FoundBefore(v, ordered, a, b) && a < b < |ordered|
    requires last.robotI == ordered[a] && last.robotJ == ordered[b]
    ensures ViolationBefore(v, last) && FoundBefore(v, ordered, a, b + 1)
  {
    var x, y :| 0 <= x < |ordered| && 0 <= y < |ordered| && FoundAt(v, ordered, x, y, a, b);
    assert FoundAt(v, ordered, x, y, a, b + 1);
  }

  lemma AppendViolation(found: seq<Violation>, last: Violation)
    requires InRobotOrder(found) && forall v | v in found :: ViolationBefore(v, last)
    ensures InRobotOrder(found + [last])
    ensures last in found + [last] && forall v | v in found :: v in found + [last]
  {
    hide ViolationBefore;
    var grown := found + [last];
    forall k, l | 0 <= k < l < |grown|
      ensures ViolationBefore(grown[k], grown[l])
    {
      if l == |found| {
        assert grown[k] in found;
      }
    }
  }

  lemma RowCompared(
    m: ConflictModel, k: Kernel, decisions: Assignment, ordered: seq<RobotId>, found: seq<Violation>, a: nat
  )
    requires decisions.Keys == m.snapshots.Keys && Elems(ordered) == m.snapshots.Keys
    requires ViolationsUpTo(m, k, decisions, ordered, found, a, |ordered|)
    ensures ViolationsUpTo(m, k, decisions, ordered, found, a + 1, a + 2)
  {
    hide Conflicting, InRobotOrder, IsViolation, RowOk;
    forall v | v in found
      ensures FoundBefore(v, ordered, a + 1, a + 2)
    {
      var x, y :| 0 <= x < |ordered| && 0 <= y < |ordered| && FoundAt(v, ordered, x, y, a, |ordered|);
      assert FoundAt(v, ordered, x, y, a + 1, a + 2);
    }
  }

  lemma AllRowsCompared(
    m: ConflictModel, k: Kernel, decisions: Assignment, ordered: seq<RobotId>, found: seq<Violation>
  )
    requires decisions.Keys == m.snapshots.Keys && Elems(ordered) == m.snapshots.Keys && StrictlyAscending(ordered)
    requires ViolationsUpTo(m, k, decisions, ordered, found, |ordered|, |ordered| + 1)
    ensures AllViolations(m, k, decisions, found)
  {
    hide Conflicting, InRobotOrder;
    forall i, j | i in m.snapshots && j in m.snapshots && i < j
      ensures RowOk(m, k, decisions, i, j, found)
    {
      RowOf(ordered, m.snapshots.Keys, i, j);
      var x, y :| 0 <= x < y < |ordered| && ordered[x] == i && ordered[y] == j;
    }
  }

  /** No violation is found exactly when all envelopes are apart. */
  lemma NoViolationsIsApart(m: ConflictModel, k: Kernel, decisions: Assignment, found: seq<Violation>)
    requires Sound(k) && AllViolations(m, k, decisions, found)
    ensures found == [] <==> AllApart(m, k, decisions)
  {
    if found == [] {
      forall i, j | i in m.snapshots && j in m.snapshots && i < j
        ensures !Clash(m, k, decisions, i, j)
      {
        assert RowOk(m, k, decisions, i, j, found);
      }
    } else {
      assert found[0] in found;
      assert Clash(m, k, decisions, found[0].robotI, found[0].robotJ);
    }
  }

  // ---------------------------------------------------------------- override of violating components

  /** All robots of the components of violating pairs. */
  function AffectedRobots(m: ConflictModel, violations: seq<Violation>): set<RobotId> {
    set c, r | c in m.components && r in c && TouchedBy(c, violations) :: r
  }

  predicate TouchedBy(c: seq<RobotId>, violations: seq<Violation>) {
    exists v | v in violations :: v.robotI in c || v.robotJ in c
  }

  /** The override never changes a decision: an affected component is already paused throughout. */
  lemma OverrideIsIdle(m: ConflictModel, k: Kernel, decisions: Assignment, found: seq<Violation>)
    requires WellFormedModel(m) && Sound(k) && Faithful(m, k) && IsSettled(m, decisions)
    requires AllViolations(m, k, decisions, found)
    ensures decisions + PauseAll(AffectedRobots(m, found)) == decisions
  {
    hide WellFormedModel, Faithful, IsSettled, SettledPart;
    forall r | r in AffectedRobots(m, found)
      ensures r in decisions && decisions[r] == Pause
    {
      var c :| c in m.components && r in c && TouchedBy(c, found);
      var n :| 0 <= n < |m.components| && m.components[n] == c;
      var v :| v in found && (v.robotI in c || v.robotJ in c);
      assert IsViolation(m, k, decisions, v);
      ClashOnlyInPausedComponent(m, k, decisions, v.robotI, v.robotJ, n);
    }
  }

  // ---------------------------------------------------------------- observation

  /** Apply the receive-age threshold. */
  function DeriveStaleness(s: Snapshot, nowMs: int, cfg: Config): Snapshot {
    s.(stale := s.stale || nowMs - s.receivedAtMs >= cfg.StaleLimitMs())
  }

  function Derived(snapshots: seq<Snapshot>, nowMs: int, cfg: Config): seq<Snapshot> {
    seq(|snapshots|, n requires 0 <= n < |snapshots| => DeriveStaleness(snapshots[n], nowMs, cfg))
  }

  /** What every tick demands of its input; anything else is a ValueError. */
  predicate ValidInput(snapshots: seq<Snapshot>, nowMs: int) {
    nowMs >= 0 && DistinctIds(snapshots) && forall s | s in snapshots :: s.receivedAtMs >= 0
  }

  /** `m` is the conflict model of the observed snapshots at this time. */
  ghost predicate Observed(m: ConflictModel, k: Kernel, snapshots: seq<Snapshot>, nowMs: int, cfg: Config) {
    WellFormedModel(m) && Faithful(m, k) && Indexes(m.snapshots, Derived(snapshots, nowMs, cfg))
  }

  method Observe(snapshots: seq<Snapshot>, nowMs: int, cfg: Config, k: Kernel) returns (r: Result<ConflictModel>)
    ensures r.Ok? <==> ValidInput(snapshots, nowMs)
    ensures r.Raised? ==> r.error == InvalidInput
    ensures r.Ok? ==> Observed(r.value, k, snapshots, nowMs, cfg)
  {
    if !ValidInput(snapshots, nowMs) {
      return Raised(InvalidInput);
    }
    var derived := Derived(snapshots, nowMs, cfg);
    assert DistinctIds(derived);
    hide WellFormedModel, Faithful, Indexes, DistinctIds;
    r := BuildConflictModel(derived, k);
  }

  // ---------------------------------------------------------------- planning on a clone

  /** An admissible proposal on matching, fitting scores never fails in the preview. */
  lemma ProposalDoesNotFail(
    m: ConflictModel, hard: Assignment, proposed: Assignment, scores: Priorities, n: nat, error: Error
  )
    requires IsProposal(m, hard, proposed) && n < |m.components| && forall r | r in hard :: hard[r] == Resume
    requires PrioritiesMatch(m, scores) && !OverflowingPart(m, m.components[n], scores)
    ensures !FailingPart(m, m.components[n], hard, proposed, scores, error)
  {
    hide IsConflictComponent, Completable, PairsSafe, FollowsPolicy, AllPause, OverflowsOn;
    var c := m.components[n];
    if IsConflictComponent(m, c) {
      assert ProposedComponent(m, n, hard, proposed);
    }
  }

  lemma ProposalsDoNotFail(m: ConflictModel, hard: Assignment, proposed: Assignment, scores: Priorities)
    requires IsProposal(m, hard, proposed) && forall r | r in hard :: hard[r] == Resume
    requires PrioritiesMatch(m, scores) && !SomeOverflow(m, scores, |m.components|)
    ensures forall n, error | 0 <= n < |m.components| :: !FailingPart(m, m.components[n], hard, proposed, scores, error)
  {
    hide IsProposal, PrioritiesMatch, FailingPart, OverflowingPart;
    forall n, error | 0 <= n < |m.components|
      ensures !FailingPart(m, m.components[n], hard, proposed, scores, error)
    {
      ProposalDoesNotFail(m, hard, proposed, scores, n, error);
    }
  }

  /** The provisional state after planning. */
  twostate predicate Planned(
    gm: GrantManager, m: ConflictModel, nowMs: int, hard: Assignment, preview: Preview
  )
    reads gm
  {
    && old(gm.Valid()) && gm.Valid() && gm.tickOpen && gm.tickId == old(gm.tickId) + 1
    && gm.waitingAges == ObservedAges(old(gm.waitingAges), m)
    && RetainedExactly(m, ReconcileAll(old(gm.activeGrants), gm.tickId, m, nowMs, gm.config), hard, gm.activeGrants)
    && (forall q | q in gm.activeGrants && q in m.snapshots ::
          gm.activeGrants[q].lastSeenTick == gm.tickId && !m.snapshots[q].Unavailable())
    && IsPlan(m, hard, preview.decisions, preview.unresolvable)
  }

  /** Score, solve and preview under the retained grants. `scores` are the scores of the tick. */
  method ProposeAndPreview(
    gm: GrantManager, m: ConflictModel, nowMs: int, hard: Assignment, solver: Option<Solver>, ghost reconciled: GrantTable
  )
    returns (r: Result<Preview>, ghost scores: Priorities)
    requires gm.Valid() && gm.tickOpen && gm.currentHard == hard && nowMs >= 0
    requires Usable(m) && IdsMatch(m.snapshots) && IsolatedHaveNoConflict(m) && PairsSorted(m.pairs)
    requires RetainedExactly(m, reconciled, hard, gm.activeGrants)
    ensures ScoredUpTo(m, scores, |m.components|, gm.config, nowMs, gm.waitingAges, gm.activeGrants)
    ensures r.Ok? ==> IsPlan(m, hard, r.value.decisions, r.value.unresolvable)
    ensures r.Ok? ==> ByObjective(gm.config, m, scores, hard, solver, r.value.decisions)
    ensures r.Ok? ==> !SomeOverflow(m, scores, |m.components|)
    ensures r.Ok? ==> !SomeRejected(gm.config, m, scores, hard, solver, |m.components|)
    ensures r.Raised? ==>
      || (r.error == ObjectiveOverflow && SomeOverflow(m, scores, |m.components|))
      || (r.error == UnsafeResult && SomeRejected(gm.config, m, scores, hard, solver, |m.components|))
  {
    hide Usable, IsolatedHaveNoConflict, IdsMatch, PairsSorted, RetainedExactly, SomeOverflow, SomeRejected, IsProposal,
      IsPreview, IsPlan, ScoredUpTo, LeasesOk, UnavailableIn, GroupOf, FailingPart, NoneFails, PrioritiesMatch,
      ChosenUpTo, RepairedUpTo, ByObjective;
    HardIsResume(m, reconciled, hard, gm.activeGrants);
    RetainedAvoidUnavailable(m, reconciled, hard, gm.activeGrants);
    var priorities := ScorePriorities(m, gm.config, nowMs, gm.waitingAges, gm.activeGrants);
    scores := priorities;
    var proposed := SolveComponents(gm.config, m, priorities, hard, solver);
    if proposed.Raised? {
      return Raised(proposed.error), scores;
    }
    ProposalKeys(m, hard, proposed.value, priorities);
    r := gm.PreviewTick(m, proposed.value, priorities);
    ProposalsDoNotFail(m, hard, proposed.value, priorities);
    if r.Ok? {
      PlanFromPreview(m, reconciled, hard, gm.activeGrants, proposed.value, r.value);
      PreviewByObjective(gm.config, m, priorities, hard, solver, proposed.value, r.value);
    }
  }

  /** The failures of a tick are exactly those its scores and the solver's answers cause. */
  ghost predicate FailsExactly<T>(
    r: Result<T>, cfg: Config, m: ConflictModel, nowMs: int, ages: Ages, before: GrantTable, tick: int,
    solver: Option<Solver>
  )
    requires cfg.Valid()
  {
    var (overflows, rejected) := (
      TickOverflows(cfg, m, nowMs, ages, before, tick), TickRejected(cfg, m, nowMs, ages, before, tick, solver)
    );
    && (r.Raised? <==> overflows || rejected)
    && (r.Raised? ==> (r.error == ObjectiveOverflow && overflows) || (r.error == UnsafeResult && rejected))
  }

  lemma FailsOnValidInput<T>(
    r: Result<T>, cfg: Config, m: ConflictModel, nowMs: int, ages: Ages, before: GrantTable, tick: int,
    solver: Option<Solver>
  )
    requires cfg.Valid() && FailsExactly(r, cfg, m, nowMs, ages, before, tick, solver)
    ensures r != Raised(InvalidInput)
  {
  }

  /** Prepare, score, solve and preview on a provisional grant manager. */
  method PlanTick(gm: GrantManager, m: ConflictModel, nowMs: int, solver: Option<Solver>)
    returns (r: Result<(Assignment, Preview)>)
    requires gm.Valid() && !gm.tickOpen && nowMs >= 0 && WellFormedModel(m)
    modifies gm
    ensures r.Ok? ==> Planned(gm, m, nowMs, r.value.0, r.value.1)
    ensures r.Ok? ==> DecidedByObjective(
      gm.config, m, nowMs, ObservedAges(old(gm.waitingAges), m), old(gm.activeGrants), gm.tickId, solver,
      r.value.1.decisions)
    ensures FailsExactly(
      r, gm.config, m, nowMs, ObservedAges(old(gm.waitingAges), m), old(gm.activeGrants), old(gm.tickId) + 1, solver)
  {
    hide WellFormedModel, Usable, IsolatedHaveNoConflict, IdsMatch, PairsSorted, RetainedExactly, ReconcileAll, ScoredUpTo,
      SomeNeutralOverflow, SomeOverflow, SomeRejected, ByObjective, IsPlan, LeasesOk, Scorable;
    WellFormedIsUsable(m);
    WellFormedIsolation(m);
    WellFormedPairs(m);
    ghost var (before, tick) := (gm.activeGrants, gm.tickId + 1);
    ghost var ages := ObservedAges(gm.waitingAges, m);
    ObservedIsScorable(m, nowMs, gm.waitingAges);
    var prepared := gm.PrepareTick(m, nowMs);
    if prepared.Raised? {
      NeutralOverflowsTick(gm.config, m, nowMs, ages, before, tick);
      return Raised(ObjectiveOverflow);
    }
    var preview;
    ghost var scores;
    preview, scores :=
      ProposeAndPreview(gm, m, nowMs, prepared.value, solver, ReconcileAll(before, tick, m, nowMs, gm.config));
    assert TickScores(gm.config, m, nowMs, ages, before, tick, prepared.value, gm.activeGrants, scores);
    if preview.Raised? {
      return Raised(preview.error);
    }
    TickSucceeds(gm.config, m, nowMs, ages, before, tick, solver, prepared.value, gm.activeGrants, scores);
    r := Ok((prepared.value, preview.value));
  }

  lemma ObservedIsScorable(m: ConflictModel, nowMs: int, ages: Ages)
    requires Usable(m) && IdsMatch(m.snapshots) && PairsSorted(m.pairs) && nowMs >= 0
    requires forall r | r in ages :: ages[r] >= 0
    ensures Scorable(m, nowMs, ObservedAges(ages, m))
  {
    hide Usable, IdsMatch, PairsSorted;
  }

  lemma ProposalKeys(m: ConflictModel, hard: Assignment, proposed: Assignment, priorities: Priorities)
    requires IsProposal(m, hard, proposed) && PrioritiesMatch(m, priorities)
    ensures proposed.Keys == m.snapshots.Keys && priorities.Keys == m.snapshots.Keys
    ensures forall q | q in priorities :: priorities[q].robotId == q
  {
  }

  // ---------------------------------------------------------------- review and commitment

  /** A plan after the independent review. */
  datatype Reviewed = Reviewed(
    decisions: Assignment,
    affected: set<RobotId>,
    initialViolations: seq<Violation>,
    finalViolations: seq<Violation>
  )

  /** Validate the plan; if any envelopes meet, Pause the violating components and validate again. */
  method Review(m: ConflictModel, k: Kernel, planned: Assignment) returns (r: Result<Reviewed>)
    requires WellFormedModel(m) && Sound(k) && Faithful(m, k) && IsSettled(m, planned)
    ensures r.Ok?
    ensures r.value.decisions == planned
    ensures AllViolations(m, k, planned, r.value.initialViolations) && AllViolations(m, k, planned, r.value.finalViolations)
    ensures r.value.finalViolations == [] ==> r.value.affected == {}
  {
    assert planned.Keys == m.snapshots.Keys;
    hide WellFormedModel, Sound, Faithful, IsSettled, AllViolations, AllApart, AffectedRobots;
    var initial := ValidateGlobalSafety(m, k, planned);
    if initial.Raised? {
      return Raised(InvalidInput);
    }
    if initial.value == [] {
      return Ok(Reviewed(planned, {}, [], []));
    }
    var affected := AffectedRobots(m, initial.value);
    var decisions := planned + PauseAll(affected);
    OverrideIsIdle(m, k, planned, initial.value);
    var final := ValidateGlobalSafety(m, k, decisions);
    if final.Raised? {
      return Raised(InvalidInput);
    }
    NoViolationsIsApart(m, k, planned, initial.value);
    NoViolationsIsApart(m, k, planned, final.value);
    r := Ok(Reviewed(decisions, affected, initial.value, final.value));
  }

  /** Revoke overridden grants, then commit on the provisional grant manager. */
  method CommitReviewed(gm: GrantManager, m: ConflictModel, decisions: Assignment, affected: set<RobotId>)
    returns (r: Result<set<RobotId>>)
    requires gm.Valid() && gm.tickOpen && Usable(m) && decisions.Keys == m.snapshots.Keys
    modifies gm
    ensures r.Raised? ==> r.error == ObjectiveOverflow && SomeNeutralOverflow(m)
    ensures r.Ok? ==>
      && gm.Valid() && !gm.tickOpen && gm.tickId == old(gm.tickId)
      && AcquiredAmong(m, old(gm.activeGrants) - affected, decisions, r.value, m.snapshots.Keys)
      && gm.activeGrants == old(gm.activeGrants) - affected + NewGrants(r.value, gm.tickId)
      && gm.waitingAges == FairnessStep(old(gm.waitingAges), WaitingRecord(m, decisions), gm.config.waitingAgeCap)
      && gm.previousActions == decisions
  {
    hide Usable, AcquiredAmong, SomeNeutralOverflow, FairnessStep, WaitingRecord, NewGrants, LeasesOk;
    if affected != {} {
      var _ := gm.RevokeForSafety(affected);
    }
    assert gm.activeGrants == old(gm.activeGrants) - affected;
    r := gm.CommitTick(m, decisions);
  }

  // ---------------------------------------------------------------- what one tick guarantees

  datatype AlarmCode =
    | UnresolvableWithPauseResume
    | ProlongedStateLossStaticObstacle
    | CurrentFootprintOverlap
    | GlobalSafetyValidationFailed
    | FailSafeGeometryRemainsUnsafe

  datatype FleetDecision = FleetDecision(
    model: ConflictModel,
    decisions: Assignment,
    alarms: set<AlarmCode>,
    committed: bool,
    initialViolations: seq<Violation>,
    finalViolations: seq<Violation>
  )

  /** Safety: the tick commits exactly when the stationary footprints are apart, committed actions are
      apart, and otherwise only robots that were all told to Pause still touch. */
  ghost predicate SafeTick(d: FleetDecision, k: Kernel) {
    var m := d.model;
    && d.decisions.Keys == m.snapshots.Keys
    && (d.committed <==> FootprintsApart(m, k))
    && (d.committed ==> AllApart(m, k, d.decisions))
    && (forall i, j | i < j && Clash(m, k, d.decisions, i, j) :: d.decisions[i] == Pause && d.decisions[j] == Pause)
    && AllViolations(m, k, d.decisions, d.initialViolations)
    && AllViolations(m, k, d.decisions, d.finalViolations)
    && (d.committed <==> d.initialViolations == []) && (d.committed <==> d.finalViolations == [])
    && forall r | r in m.snapshots && m.Unavailable(r) :: d.decisions[r] == Pause
  }

  /** Liveness of one tick: isolated robots move unless unavailable, and a conflict component moves
      somebody exactly when some safe assignment does. */
  ghost predicate LiveTick(d: FleetDecision) {
    && (forall r | r in d.model.isolated :: FollowsPolicy(d.model, d.decisions, r))
    && forall n | 0 <= n < |d.model.components| && IsConflictComponent(d.model, d.model.components[n]) ::
         MovesWhenPossible(d, d.model.components[n])
  }

  ghost predicate MovesWhenPossible(d: FleetDecision, c: seq<RobotId>) {
    HasResume(Restrict(d.decisions, Elems(c))) <==> ProgressPossible(d.model, c)
  }

  /** Each alarm is raised exactly when its condition holds. */
  ghost predicate ExactAlarms(d: FleetDecision, k: Kernel) {
    var m := d.model;
    && (UnresolvableWithPauseResume in d.alarms
        <==> exists n | 0 <= n < |m.components| :: Unresolvable(m, m.components[n]))
    && (ProlongedStateLossStaticObstacle in d.alarms <==> exists r | r in m.snapshots :: m.snapshots[r].stale)
    && (CurrentFootprintOverlap in d.alarms <==> !FootprintsApart(m, k))
    && (GlobalSafetyValidationFailed in d.alarms <==> !FootprintsApart(m, k))
    && (FailSafeGeometryRemainsUnsafe in d.alarms <==> !FootprintsApart(m, k))
  }

  lemma SettledTickIsSafe(m: ConflictModel, k: Kernel, decisions: Assignment)
    requires WellFormedModel(m) && Sound(k) && Faithful(m, k) && IsSettled(m, decisions)
    ensures AllApart(m, k, decisions) <==> FootprintsApart(m, k)
    ensures forall i, j | i < j && Clash(m, k, decisions, i, j) :: decisions[i] == Pause && decisions[j] == Pause
    ensures forall r | r in m.snapshots && m.Unavailable(r) :: decisions[r] == Pause
  {
    WellFormedIsUsable(m);
    assert decisions.Keys == m.snapshots.Keys;
    hide WellFormedModel, Usable, Sound, Faithful, IsSettled, AllApart, FootprintsApart, Clash;
    if FootprintsApart(m, k) {
      SettledWhenApart(m, k, decisions);
    }
    if AllApart(m, k, decisions) {
      FootprintsApartFromDecisions(m, k, decisions);
    }
    forall i, j | i < j && Clash(m, k, decisions, i, j)
      ensures decisions[i] == Pause && decisions[j] == Pause
    {
      ClashParticipants(m, k, decisions, i, j);
      var n := FindComponent(m, i);
      ClashOnlyInPausedComponent(m, k, decisions, i, j, n);
    }
    forall r | r in m.snapshots && m.Unavailable(r)
      ensures decisions[r] == Pause
    {
      UnavailableStayPaused(m, decisions, r);
    }
  }

  lemma PlannedTickIsLive(d: FleetDecision, hard: Assignment, unresolvable: bool)
    requires IsPlan(d.model, hard, d.decisions, unresolvable)
    ensures LiveTick(d)
    ensures unresolvable <==> exists n | 0 <= n < |d.model.components| :: Unresolvable(d.model, d.model.components[n])
  {
    hide ProgressPossible, Completion, Completable, FollowsPolicy, IsConflictComponent, Unresolvable;
    forall n | 0 <= n < |d.model.components| && IsConflictComponent(d.model, d.model.components[n])
      ensures MovesWhenPossible(d, d.model.components[n])
    {
      assert PlannedPart(d.model, d.model.components[n], hard, d.decisions);
    }
  }

  function Alarms(unresolvable: bool, stale: bool, overlap: bool, initial: bool, final: bool): set<AlarmCode> {
    (if unresolvable then {UnresolvableWithPauseResume} else {})
    + (if stale then {ProlongedStateLossStaticObstacle} else {})
    + (if overlap then {CurrentFootprintOverlap} else {})
    + (if initial then {GlobalSafetyValidationFailed} else {})
    + (if final then {FailSafeGeometryRemainsUnsafe} else {})
  }

  /** The reviewed decision of one tick, before it is committed. */
  method DecideOn(
    m: ConflictModel, k: Kernel, preview: Preview, ghost hard: Assignment
  )
    returns (r: Result<(FleetDecision, set<RobotId>)>)
    requires WellFormedModel(m) && Sound(k) && Faithful(m, k)
    requires IsPlan(m, hard, preview.decisions, preview.unresolvable)
    ensures r.Ok?
    ensures var d := r.value.0;
            && d.model == m && d.decisions == preview.decisions
            && SafeTick(d, k) && LiveTick(d) && ExactAlarms(d, k)
            && (d.committed ==> r.value.1 == {})
  {
    hide WellFormedModel, Sound, Faithful, IsPlan, IsSettled, AllViolations, SafeTick, LiveTick, ExactAlarms, Alarms,
      PauseAll;
    PlanIsSettled(m, hard, preview.decisions, preview.unresolvable);
    PausedKeys(m.snapshots.Keys);
    var footprints := ValidateGlobalSafety(m, k, PauseAll(m.snapshots.Keys));
    if footprints.Raised? {
      return Raised(InvalidInput);
    }
    var reviewed := Review(m, k, preview.decisions);
    var v := reviewed.value;
    var stale := exists q | q in m.snapshots :: m.snapshots[q].stale;
    var alarms := Alarms(
      preview.unresolvable, stale, footprints.value != [], v.initialViolations != [], v.finalViolations != []
    );
    var d := FleetDecision(m, v.decisions, alarms, v.finalViolations == [], v.initialViolations, v.finalViolations);
    TickAssembled(d, k, hard, preview.unresolvable, footprints.value);
    r := Ok((d, v.affected));
  }

  lemma PlanIsSettled(m: ConflictModel, hard: Assignment, planned: Assignment, unresolvable: bool)
    requires WellFormedModel(m) && IsPlan(m, hard, planned, unresolvable)
    ensures IsSettled(m, planned)
  {
    WellFormedIsUsable(m);
    PlanSettles(m, hard, planned, unresolvable);
  }

  lemma TickAssembled(
    d: FleetDecision, k: Kernel, hard: Assignment, unresolvable: bool, footprints: seq<Violation>
  )
    requires WellFormedModel(d.model) && Sound(k) && Faithful(d.model, k)
    requires IsPlan(d.model, hard, d.decisions, unresolvable)
    requires AllViolations(d.model, k, PauseAll(d.model.snapshots.Keys), footprints)
    requires AllViolations(d.model, k, d.decisions, d.initialViolations)
    requires AllViolations(d.model, k, d.decisions, d.finalViolations)
    requires d.committed == (d.finalViolations == [])
    requires d.alarms == Alarms(
      unresolvable, exists q | q in d.model.snapshots :: d.model.snapshots[q].stale,
      footprints != [], d.initialViolations != [], d.finalViolations != []
    )
    ensures SafeTick(d, k) && LiveTick(d) && ExactAlarms(d, k)
  {
    hide WellFormedModel, Sound, Faithful, IsPlan, IsSettled, AllViolations, SafeTick, LiveTick, ExactAlarms, Alarms;
    PlanIsSettled(d.model, hard, d.decisions, unresolvable);
    PlannedTickIsLive(d, hard, unresolvable);
    AssembledIsSafe(d, k);
    AlarmsAreExact(d, k, unresolvable, footprints);
  }

  lemma AssembledIsSafe(d: FleetDecision, k: Kernel)
    requires WellFormedModel(d.model) && Sound(k) && Faithful(d.model, k) && IsSettled(d.model, d.decisions)
    requires AllViolations(d.model, k, d.decisions, d.initialViolations)
    requires AllViolations(d.model, k, d.decisions, d.finalViolations)
    requires d.committed == (d.finalViolations == [])
    ensures SafeTick(d, k)
    ensures d.initialViolations == [] <==> FootprintsApart(d.model, k)
    ensures d.finalViolations == [] <==> FootprintsApart(d.model, k)
  {
    hide WellFormedModel, Sound, Faithful, AllViolations, AllApart, FootprintsApart, Clash, SettledPart;
    NoViolationsIsApart(d.model, k, d.decisions, d.initialViolations);
    NoViolationsIsApart(d.model, k, d.decisions, d.finalViolations);
    SettledTickIsSafe(d.model, k, d.decisions);
  }

  lemma AlarmsAreExact(d: FleetDecision, k: Kernel, unresolvable: bool, footprints: seq<Violation>)
    requires Sound(k) && AllViolations(d.model, k, PauseAll(d.model.snapshots.Keys), footprints)
    requires d.initialViolations == [] <==> FootprintsApart(d.model, k)
    requires d.finalViolations == [] <==> FootprintsApart(d.model, k)
    requires unresolvable <==> exists n | 0 <= n < |d.model.components| :: Unresolvable(d.model, d.model.components[n])
    requires d.alarms == Alarms(
      unresolvable, exists q | q in d.model.snapshots :: d.model.snapshots[q].stale,
      footprints != [], d.initialViolations != [], d.finalViolations != []
    )
    ensures ExactAlarms(d, k)
  {
    hide Sound, AllViolations, FootprintsApart, Unresolvable;
    FootprintsNotClashing(d.model, k, footprints);
  }

  lemma PausedKeys(ids: set<RobotId>)
    ensures PauseAll(ids).Keys == ids
  {
  }

  lemma FootprintsNotClashing(m: ConflictModel, k: Kernel, found: seq<Violation>)
    requires Sound(k) && AllViolations(m, k, PauseAll(m.snapshots.Keys), found)
    ensures found == [] <==> FootprintsApart(m, k)
  {
    NoViolationsIsApart(m, k, PauseAll(m.snapshots.Keys), found);
  }

  // ---------------------------------------------------------------- committed state

  /** Robots that acquire a grant: Resumed in a conflict without holding one yet. */
  function Newcomers(m: ConflictModel, kept: GrantTable, decisions: Assignment): set<RobotId> {
    set r | r in decisions && decisions[r] == Resume && m.HasConflict(r) && r !in kept
  }

  /** The exact grant transition of a committed tick: reconcile, retain oldest first, and let every
      newly moving conflict participant acquire. */
  ghost predicate GrantsEvolve(
    m: ConflictModel, before: GrantTable, tick: int, nowMs: int, cfg: Config, decisions: Assignment, after: GrantTable
  )
    requires cfg.Valid()
  {
    exists hard, kept ::
      RetainedExactly(m, ReconcileAll(before, tick, m, nowMs, cfg), hard, kept)
      && after == kept + NewGrants(Newcomers(m, kept, decisions), tick)
  }

  /** No holder that must not be pre-empted is paused. */
  ghost predicate NobodyPreempted(d: FleetDecision, grants: GrantTable, tick: int, nowMs: int, cfg: Config) {
    forall n, r | 0 <= n < |d.model.components|
                  && HoldsRightOfWay(d.model, d.model.components[n], grants, tick, nowMs, cfg, r) ::
      r in d.decisions && d.decisions[r] == Resume
  }

  lemma PlanPreemptsNobody(
    d: FleetDecision, grants: GrantTable, tick: int, nowMs: int, cfg: Config, hard: Assignment, kept: GrantTable,
    unresolvable: bool
  )
    requires cfg.Valid() && (forall q | q in grants :: grants[q].robotId == q) && WellFormedModel(d.model)
    requires RetainedExactly(d.model, ReconcileAll(grants, tick, d.model, nowMs, cfg), hard, kept)
    requires IsPlan(d.model, hard, d.decisions, unresolvable)
    ensures NobodyPreempted(d, grants, tick, nowMs, cfg)
  {
    hide WellFormedModel, RetainedExactly, IsPlan, HoldsRightOfWay, ReconcileAll;
    WellFormedIsUsable(d.model);
    forall n, r | 0 <= n < |d.model.components|
                  && HoldsRightOfWay(d.model, d.model.components[n], grants, tick, nowMs, cfg, r)
      ensures r in d.decisions && d.decisions[r] == Resume
    {
      OldestHolderIsNotPreempted(d.model, grants, tick, nowMs, cfg, hard, kept, d.decisions, unresolvable, r, n);
    }
  }

  lemma NewcomersAcquire(
    m: ConflictModel, before: GrantTable, hard: Assignment, kept: GrantTable, planned: Assignment, unresolvable: bool,
    acquired: set<RobotId>, tick: int
  )
    requires WellFormedModel(m)
    requires RetainedExactly(m, before, hard, kept) && IsPlan(m, hard, planned, unresolvable)
    requires forall q | q in kept && q in m.snapshots :: !m.snapshots[q].Unavailable()
    requires AcquiredAmong(m, kept, planned, acquired, m.snapshots.Keys)
    ensures GrantsTrackResumes(m, kept + NewGrants(acquired, tick), planned)
    ensures acquired == Newcomers(m, kept, planned)
  {
    hide WellFormedModel, IsolatedHaveNoConflict, Usable, RetainedExactly, IsPlan, AcquiredAmong, IsCandidate;
    WellFormedIsUsable(m);
    WellFormedIsolation(m);
    CommitTracksResumes(m, before, hard, kept, planned, unresolvable, acquired, tick);
    AcquiredKeys(m, kept, hard, planned, unresolvable, acquired);
    forall r | r in acquired
      ensures r in Newcomers(m, kept, planned)
    {
      var n := FindComponent(m, r);
      AcquiredCandidates(m, kept, planned, acquired, r, n);
      CandidateIsNewcomer(m, kept, planned, r);
    }
    forall r | r in Newcomers(m, kept, planned)
      ensures r in acquired
    {
      assert r in kept + NewGrants(acquired, tick);
    }
  }

  lemma CandidateIsNewcomer(m: ConflictModel, kept: GrantTable, planned: Assignment, r: RobotId)
    requires IsCandidate(m, kept, planned, r)
    ensures r in Newcomers(m, kept, planned)
  {
  }

  lemma ObservedLeases(m: ConflictModel, grants: GrantTable, acquired: set<RobotId>, tick: int, cfg: Config)
    requires cfg.Valid() && LeasesOk(grants + NewGrants(acquired, tick), tick, cfg)
    requires forall q | q in grants && q in m.snapshots :: grants[q].lastSeenTick == tick
    ensures var after := grants + NewGrants(acquired, tick);
            forall q | q in after && q in m.snapshots :: tick - after[q].acquisitionTick <= LeaseBound(cfg)
  {
    var after := grants + NewGrants(acquired, tick);
    forall q | q in after && q in m.snapshots
      ensures tick - after[q].acquisitionTick <= LeaseBound(cfg)
    {
      LeaseAgeBound(after, tick, cfg, q);
    }
  }

  /** The grant manager after a committed tick. */
  twostate predicate CommittedState(gm: GrantManager, d: FleetDecision, nowMs: int)
    requires old(gm.Valid())
    reads gm
  {
    var m := d.model;
    && gm.Valid() && !gm.tickOpen && gm.tickId == old(gm.tickId) + 1
    && d.decisions.Keys == m.snapshots.Keys
    && GrantsEvolve(m, old(gm.activeGrants), gm.tickId, nowMs, gm.config, d.decisions, gm.activeGrants)
    && GrantsTrackResumes(m, gm.activeGrants, d.decisions)
    && (forall q | q in gm.activeGrants && q in m.snapshots ::
          gm.tickId - gm.activeGrants[q].acquisitionTick <= LeaseBound(gm.config))
    && gm.previousActions == d.decisions
    && gm.waitingAges == FairnessStep(old(gm.waitingAges), WaitingRecord(m, d.decisions), gm.config.waitingAgeCap)
  }

  /** Plan, review and commit one tick on a provisional grant manager. */
  method RunTick(gm: GrantManager, m: ConflictModel, k: Kernel, nowMs: int, solver: Option<Solver>)
    returns (r: Result<FleetDecision>)
    requires gm.Valid() && !gm.tickOpen && nowMs >= 0 && WellFormedModel(m) && Sound(k) && Faithful(m, k)
    modifies gm
    ensures FailsExactly(
      r, gm.config, m, nowMs, ObservedAges(old(gm.waitingAges), m), old(gm.activeGrants), old(gm.tickId) + 1, solver)
    ensures r.Ok? ==> r.value.model == m && SafeTick(r.value, k) && LiveTick(r.value) && ExactAlarms(r.value, k)
    ensures r.Ok? ==>
      NobodyPreempted(r.value, old(gm.activeGrants), old(gm.tickId) + 1, nowMs, gm.config)
    ensures r.Ok? ==> DecidedByObjective(
      gm.config, m, nowMs, ObservedAges(old(gm.waitingAges), m), old(gm.activeGrants), old(gm.tickId) + 1, solver,
      r.value.decisions)
    ensures r.Ok? ==> MaximisesWhenOptimal(
      gm.config, m, nowMs, ObservedAges(old(gm.waitingAges), m), old(gm.activeGrants), old(gm.tickId) + 1, solver,
      r.value.decisions)
    ensures r.Ok? && r.value.committed ==> CommittedState(gm, r.value, nowMs)
  {
    hide SafeTick, LiveTick, ExactAlarms, NobodyPreempted, GrantsEvolve, GrantsTrackResumes, WellFormedModel, Faithful, Sound,
      IsPlan, RetainedExactly, ReconcileAll, AcquiredAmong, Newcomers, NewGrants, LeaseBound, FairnessStep, WaitingRecord,
      DecidedByObjective, MaximisesWhenOptimal, TickOverflows, TickRejected, SomeNeutralOverflow, ObservedAges, LeasesOk;
    ghost var before := gm.activeGrants;
    ghost var ages := ObservedAges(gm.waitingAges, m);
    OwnRecords(gm.activeGrants, gm.tickId, gm.config);
    NeutralFailsTick(gm.config, m, nowMs, gm.waitingAges, before, gm.tickId + 1);
    var plan := PlanTick(gm, m, nowMs, solver);
    if plan.Raised? {
      return Raised(plan.error);
    }
    var (hard, preview) := plan.value;
    ghost var kept := gm.activeGrants;
    var tick := DecideOn(m, k, preview, hard);
    var d := tick.value.0;
    PlanPreemptsNobody(d, before, gm.tickId, nowMs, gm.config, hard, kept, preview.unresolvable);
    DecisionKeys(d, hard, preview.unresolvable);
    PlanMaximises(d, hard, preview.unresolvable, gm.config, nowMs, ages, before, gm.tickId, solver);
    if d.committed {
      var acquired := CommitPlan(gm, m, nowMs, d.decisions, tick.value.1, before, hard, preview.unresolvable);
      AgesOfObserved(old(gm.waitingAges), m, d.decisions, gm.config.waitingAgeCap);
      if acquired.Raised? {
        return Raised(ObjectiveOverflow);
      }
    }
    r := Ok(d);
  }

  lemma PlanMaximises(
    d: FleetDecision, hard: Assignment, unresolvable: bool, cfg: Config, nowMs: int, ages: Ages, before: GrantTable,
    tick: int, solver: Option<Solver>
  )
    requires cfg.Valid() && WellFormedModel(d.model) && IsPlan(d.model, hard, d.decisions, unresolvable)
    requires DecidedByObjective(cfg, d.model, nowMs, ages, before, tick, solver, d.decisions)
    ensures MaximisesWhenOptimal(cfg, d.model, nowMs, ages, before, tick, solver, d.decisions)
  {
    hide WellFormedModel, DecidedByObjective, MaximisesWhenOptimal, PlannedPart, FollowsPolicy;
    DecisionMaximises(cfg, d.model, nowMs, ages, before, tick, solver, d.decisions);
  }

  /** An overflow of the grant manager's own checks is an overflow of the tick. */
  lemma NeutralFailsTick(cfg: Config, m: ConflictModel, nowMs: int, ages: Ages, before: GrantTable, tick: int)
    requires cfg.Valid() && nowMs >= 0 && WellFormedModel(m) && forall r | r in ages :: ages[r] >= 0
    ensures SomeNeutralOverflow(m) ==> TickOverflows(cfg, m, nowMs, ObservedAges(ages, m), before, tick)
  {
    hide WellFormedModel, Usable, IdsMatch, PairsSorted, Scorable, SomeNeutralOverflow, TickOverflows, ObservedAges;
    WellFormedIsUsable(m);
    WellFormedIsolation(m);
    WellFormedPairs(m);
    ObservedIsScorable(m, nowMs, ages);
    if SomeNeutralOverflow(m) {
      NeutralOverflowsTick(cfg, m, nowMs, ObservedAges(ages, m), before, tick);
    }
  }

  lemma OwnRecords(grants: GrantTable, tick: int, cfg: Config)
    requires cfg.Valid() && LeasesOk(grants, tick, cfg)
    ensures forall q | q in grants :: grants[q].robotId == q
  {
  }

  lemma DecisionKeys(d: FleetDecision, hard: Assignment, unresolvable: bool)
    requires IsPlan(d.model, hard, d.decisions, unresolvable)
    ensures d.decisions.Keys == d.model.snapshots.Keys
  {
  }

  /** Forgetting absent robots at the start of the tick does not change the fairness update. */
  lemma AgesOfObserved(ages: Ages, m: ConflictModel, decisions: Assignment, cap: int)
    requires decisions.Keys == m.snapshots.Keys
    ensures FairnessStep(ObservedAges(ages, m), WaitingRecord(m, decisions), cap)
            == FairnessStep(ages, WaitingRecord(m, decisions), cap)
  {
    AbsentAgesDoNotMatter(ages, ObservedAges(ages, m), WaitingRecord(m, decisions), cap);
  }

  /** Commit a plan whose review found nothing, and derive the exact grant transition. */
  method CommitPlan(
    gm: GrantManager, m: ConflictModel, nowMs: int, decisions: Assignment, affected: set<RobotId>,
    ghost before: GrantTable, ghost hard: Assignment, ghost unresolvable: bool
  )
    returns (r: Result<set<RobotId>>)
    requires gm.Valid() && gm.tickOpen && WellFormedModel(m) && decisions.Keys == m.snapshots.Keys
    requires affected == {}
    requires RetainedExactly(m, ReconcileAll(before, gm.tickId, m, nowMs, gm.config), hard, gm.activeGrants)
    requires IsPlan(m, hard, decisions, unresolvable)
    requires forall q | q in gm.activeGrants && q in m.snapshots ::
               gm.activeGrants[q].lastSeenTick == gm.tickId && !m.snapshots[q].Unavailable()
    modifies gm
    ensures r.Raised? ==> r.error == ObjectiveOverflow && SomeNeutralOverflow(m)
    ensures r.Ok? ==>
      && gm.Valid() && !gm.tickOpen && gm.tickId == old(gm.tickId)
      && GrantsEvolve(m, before, gm.tickId, nowMs, gm.config, decisions, gm.activeGrants)
      && GrantsTrackResumes(m, gm.activeGrants, decisions)
      && (forall q | q in gm.activeGrants && q in m.snapshots ::
            gm.tickId - gm.activeGrants[q].acquisitionTick <= LeaseBound(gm.config))
      && gm.previousActions == decisions
      && gm.waitingAges == FairnessStep(old(gm.waitingAges), WaitingRecord(m, decisions), gm.config.waitingAgeCap)
  {
    hide WellFormedModel, Usable, RetainedExactly, ReconcileAll, IsPlan, SomeNeutralOverflow, AcquiredAmong,
      GrantsTrackResumes, Newcomers, NewGrants, FairnessStep, WaitingRecord, LeaseBound, LeasesOk;
    WellFormedIsUsable(m);
    ghost var kept := gm.activeGrants;
    assert kept - affected == kept;
    r := CommitReviewed(gm, m, decisions, affected);
    if r.Ok? {
      ghost var reconciled := ReconcileAll(before, gm.tickId, m, nowMs, gm.config);
      NewcomersAcquire(m, reconciled, hard, kept, decisions, unresolvable, r.value, gm.tickId);
      ObservedLeases(m, kept, r.value, gm.tickId, gm.config);
    }
  }

  // ---------------------------------------------------------------- the state between ticks

  /** What one tick passes on to the next. */
  datatype EngineState = EngineState(ages: Ages, grants: GrantTable, tickId: nat)

  /** The decisions follow the objective from this state, in which nothing fails. */
  ghost predicate DecidedIn(d: FleetDecision, nowMs: int, cfg: Config, state: EngineState, solver: Option<Solver>)
    requires cfg.Valid()
  {
    var (ages, tick) := (ObservedAges(state.ages, d.model), state.tickId + 1);
    && DecidedByObjective(cfg, d.model, nowMs, ages, state.grants, tick, solver, d.decisions)
    && !TickOverflows(cfg, d.model, nowMs, ages, state.grants, tick)
    && !TickRejected(cfg, d.model, nowMs, ages, state.grants, tick, solver)
  }

  /** The tick fails from this state, with this error. */
  ghost predicate FailsIn(
    error: Error, m: ConflictModel, nowMs: int, cfg: Config, state: EngineState, solver: Option<Solver>
  )
    requires cfg.Valid()
  {
    var (ages, tick) := (ObservedAges(state.ages, m), state.tickId + 1);
    || (error == ObjectiveOverflow && TickOverflows(cfg, m, nowMs, ages, state.grants, tick))
    || (error == UnsafeResult && TickRejected(cfg, m, nowMs, ages, state.grants, tick, solver))
  }

  /** The state after a tick: advanced exactly if the tick commits. */
  ghost predicate StateAfter(d: FleetDecision, nowMs: int, cfg: Config, before: EngineState, after: EngineState)
    requires cfg.Valid()
  {
    if d.committed then
      && d.decisions.Keys == d.model.snapshots.Keys
      && after.tickId == before.tickId + 1
      && GrantsEvolve(d.model, before.grants, after.tickId, nowMs, cfg, d.decisions, after.grants)
      && after.ages == FairnessStep(before.ages, WaitingRecord(d.model, d.decisions), cfg.waitingAgeCap)
    else
      after == before
  }

  class CollisionDecisionEngine {
    const config: Config
    const kernel: Kernel
    var grantManager: GrantManager

    /** Which robots waited at each committed tick so far. */
    ghost var history: seq<TickRecord>

    ghost predicate Valid()
      reads this, grantManager
    {
      && config.Valid() && Sound(kernel)
      && grantManager.config == config && grantManager.Valid() && !grantManager.tickOpen
      && grantManager.tickId == |history|
      && grantManager.waitingAges == AgesAfter(history, config.waitingAgeCap)
    }

    ghost function State(): EngineState
      reads this, grantManager
    {
      EngineState(grantManager.waitingAges, grantManager.activeGrants, grantManager.tickId)
    }

    constructor (config: Config, kernel: Kernel)
      requires config.Valid() && Sound(kernel)
      ensures Valid() && fresh(grantManager) && State() == EngineState(map[], map[], 0)
      ensures this.config == config && this.kernel == kernel
      ensures history == [] && grantManager.activeGrants == map[]
    {
      this.config := config;
      this.kernel := kernel;
      grantManager := new GrantManager(config);
      history := [];
    }

    /** One fully reviewed action per observed robot. State changes only if the tick commits. */
    method Decide(snapshots: seq<Snapshot>, nowMs: int, solver: Option<Solver>)
      returns (r: Result<FleetDecision>, ghost m: ConflictModel)
      requires Valid()
      modifies this
      ensures Valid()
      ensures ValidInput(snapshots, nowMs) ==> Observed(m, kernel, snapshots, nowMs, config)
      // Failures: malformed input; and then exactly an overflow on the scores of the tick or a rejected answer.
      ensures r == Raised(InvalidInput) <==> !ValidInput(snapshots, nowMs)
      ensures ValidInput(snapshots, nowMs) ==> FailsExactly(
        r, config, m, nowMs, ObservedAges(old(grantManager.waitingAges), m), old(grantManager.activeGrants),
        old(grantManager.tickId) + 1, solver)
      // Decisions.
      ensures r.Ok? ==> r.value.model == m && Observed(m, kernel, snapshots, nowMs, config)
      ensures r.Ok? ==> SafeTick(r.value, kernel) && LiveTick(r.value) && ExactAlarms(r.value, kernel)
      ensures r.Ok? ==>
        NobodyPreempted(r.value, old(grantManager.activeGrants), old(grantManager.tickId) + 1, nowMs, config)
      ensures r.Ok? ==> DecidedByObjective(
        config, m, nowMs, ObservedAges(old(grantManager.waitingAges), m),
        old(grantManager.activeGrants), old(grantManager.tickId) + 1, solver, r.value.decisions)
      ensures r.Ok? ==> MaximisesWhenOptimal(
        config, m, nowMs, ObservedAges(old(grantManager.waitingAges), m),
        old(grantManager.activeGrants), old(grantManager.tickId) + 1, solver, r.value.decisions)
      // State.
      ensures r.Ok? && r.value.committed ==>
        var grants := grantManager.activeGrants;
        && fresh(grantManager) && grantManager.tickId == old(grantManager.tickId) + 1
        && GrantsEvolve(
             m, old(grantManager.activeGrants), grantManager.tickId, nowMs, config, r.value.decisions, grants)
        && GrantsTrackResumes(m, grants, r.value.decisions)
        && (forall q | q in grants && q in m.snapshots ::
              grantManager.tickId - grants[q].acquisitionTick <= LeaseBound(config))
        && grantManager.previousActions == r.value.decisions
        && grantManager.waitingAges
           == FairnessStep(old(grantManager.waitingAges), WaitingRecord(m, r.value.decisions), config.waitingAgeCap)
        && history == old(history) + [WaitingRecord(m, r.value.decisions)]
      ensures !(r.Ok? && r.value.committed) ==> grantManager == old(grantManager) && history == old(history)
    {
      hide SafeTick, LiveTick, ExactAlarms, NobodyPreempted, FailsExactly, GrantsEvolve, GrantsTrackResumes, Observed,
        ValidInput, Sound, WellFormedModel, Faithful, Newcomers, LeasesOk, FairnessStep, WaitingRecord, DecidedByObjective,
        MaximisesWhenOptimal, ObservedAges;
      var observed := Observe(snapshots, nowMs, config, kernel);
      if observed.Raised? {
        m := ConflictModel(map[], [], [], [], map[], [], []);
        return Raised(InvalidInput), m;
      }
      m := observed.value;
      ObservedFacts(m, kernel, snapshots, nowMs, config);
      var cloned := grantManager.Clone();
      if cloned.Raised? {
        return Raised(TickAlreadyOpen), m;
      }
      var provisional := cloned.value;
      r := RunTick(provisional, observed.value, kernel, nowMs, solver);
      FailsOnValidInput(
        r, config, m, nowMs, ObservedAges(grantManager.waitingAges, m), grantManager.activeGrants, grantManager.tickId + 1,
        solver);
      if r.Ok? && r.value.committed {
        ghost var record := WaitingRecord(m, r.value.decisions);
        HistoryGrows(history, record, config.waitingAgeCap);
        grantManager := provisional;
        history := history + [record];
      }
    }
  }

  lemma ObservedFacts(m: ConflictModel, k: Kernel, snapshots: seq<Snapshot>, nowMs: int, cfg: Config)
    requires Observed(m, k, snapshots, nowMs, cfg) && ValidInput(snapshots, nowMs)
    ensures WellFormedModel(m) && Faithful(m, k) && |m.snapshots| == |snapshots| && nowMs >= 0
  {
    hide WellFormedModel, Faithful;
    var derived := Derived(snapshots, nowMs, cfg);
    var ids := seq(|derived|, n requires 0 <= n < |derived| => derived[n].id);
    DistinctCardinality(ids);
    forall r
      ensures r in m.snapshots <==> r in ids
    {
      if r in m.snapshots {
        var n :| 0 <= n < |derived| && derived[n] == m.snapshots[r];
        assert ids[n] == r;
      }
      if r in ids {
        var n :| 0 <= n < |ids| && ids[n] == r;
        assert derived[n] in derived;
      }
    }
    assert Elems(ids) == m.snapshots.Keys;
    assert |m.snapshots.Keys| == |m.snapshots|;
  }

  /** With an honest solver a tick raises exactly when a component overflows on the scores of the tick. */
  lemma HonestTickRaisesExactly<T>(
    r: Result<T>, cfg: Config, m: ConflictModel, nowMs: int, ages: Ages, before: GrantTable, tick: int,
    solver: Option<Solver>
  )
    requires cfg.Valid() && Honest(solver) && FailsExactly(r, cfg, m, nowMs, ages, before, tick, solver)
    ensures r.Raised? <==> TickOverflows(cfg, m, nowMs, ages, before, tick)
    ensures r.Raised? ==> r.error == ObjectiveOverflow
  {
    hide TickOverflows, TickRejected, Honest;
    if TickRejected(cfg, m, nowMs, ages, before, tick, solver) {
      HonestIsNotRejected(cfg, m, nowMs, ages, before, tick, solver);
    }
  }

  /** A configuration that scales the throughput reward of one conflict component out of range fails the tick. */
  lemma LargeRewardRaises<T>(
    r: Result<T>, cfg: Config, m: ConflictModel, k: Kernel, snapshots: seq<Snapshot>, nowMs: int, ages: Ages,
    before: GrantTable, tick: int, solver: Option<Solver>, n: nat
  )
    requires cfg.Valid() && ValidInput(snapshots, nowMs) && Observed(m, k, snapshots, nowMs, cfg)
    requires (forall q | q in ages :: ages[q] >= 0) && n < |m.components|
    requires IsConflictComponent(m, m.components[n]) && RewardOutOfRange(|m.components[n]|, cfg)
    requires FailsExactly(r, cfg, m, nowMs, ObservedAges(ages, m), before, tick, solver)
    ensures r.Raised? && (Honest(solver) ==> r.error == ObjectiveOverflow)
  {
    hide WellFormedModel, Usable, IdsMatch, PairsSorted, Scorable, Observed, ValidInput, Faithful, IsConflictComponent,
      RewardOutOfRange, TickOverflows, TickRejected, Honest, ObservedAges;
    ObservedFacts(m, k, snapshots, nowMs, cfg);
    WellFormedIsUsable(m);
    WellFormedIsolation(m);
    WellFormedPairs(m);
    ObservedIsScorable(m, nowMs, ages);
    LargeRewardOverflowsTick(cfg, m, nowMs, ObservedAges(ages, m), before, tick, n);
    if Honest(solver) {
      HonestTickRaisesExactly(r, cfg, m, nowMs, ObservedAges(ages, m), before, tick, solver);
    }
  }

  /** Under one valid configuration every tick on valid input with a two-robot conflict component fails. */
  lemma ValidConfigurationCanRaise<T>(
    r: Result<T>, m: ConflictModel, k: Kernel, snapshots: seq<Snapshot>, nowMs: int, ages: Ages, before: GrantTable,
    tick: int, solver: Option<Solver>, n: nat
  )
    requires ValidInput(snapshots, nowMs) && Observed(m, k, snapshots, nowMs, OverflowingConfig())
    requires (forall q | q in ages :: ages[q] >= 0) && n < |m.components|
    requires IsConflictComponent(m, m.components[n]) && |m.components[n]| == 2
    requires FailsExactly(r, OverflowingConfig(), m, nowMs, ObservedAges(ages, m), before, tick, solver)
    ensures r.Raised? && (Honest(solver) ==> r.error == ObjectiveOverflow)
  {
    hide Observed, ValidInput, FailsExactly, IsConflictComponent, RewardOutOfRange, Honest, OverflowingConfig;
    LargeRewardRaises(r, OverflowingConfig(), m, k, snapshots, nowMs, ages, before, tick, solver, n);
  }

  lemma HistoryGrows(history: seq<TickRecord>, record: TickRecord, cap: int)
    ensures AgesAfter(history + [record], cap) == FairnessStep(AgesAfter(history, cap), record, cap)
  {
    assert (history + [record])[..|history|] == history;
  }
}
