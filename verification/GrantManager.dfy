/** The tick-to-tick grant, waiting-age and previous-action state machine. */
module GrantManagement {
  import opened Basics
  import opened Components
  import opened Conflicts
  import opened Decomposition
  import opened Fairness
  import opened GrantRules
  import opened Heuristic
  import opened Models
  import opened Objective
  import opened Optimiser

  /** A repaired decision that has not changed persistent state. */
  datatype Preview = Preview(decisions: Assignment, unresolvable: bool)

  /** One component after validation or repair. */
  ghost predicate PreviewedComponent(
    m: ConflictModel, c: seq<RobotId>, hard: Assignment, before: Assignment, after: Assignment
  ) {
    var ids := Elems(c);
    var pairs := ComponentPairs(ids, m.pairs);
    if AllPause(before) then
      if CanProgress(ids, pairs, RepairHard(m, c, hard)) then
        SafeCompletion(after, ids, pairs, RepairHard(m, c, hard)) && HasResume(after)
      else
        after == before
    else
      after == before && SafeCompletion(after, ids, pairs, Restrict(hard, ids))
  }

  /** A repaired component gets the safe completion that Resumes greedily in rank order. */
  ghost predicate RepairedBest(
    m: ConflictModel, c: seq<RobotId>, priorities: Priorities, hard: Assignment, before: Assignment, after: Assignment
  ) {
    var ids := Elems(c);
    var pairs := ComponentPairs(ids, m.pairs);
    AllPause(before) && CanProgress(ids, pairs, RepairHard(m, c, hard)) ==>
      && Scored(Ascending(ids), priorities)
      && IsBestCompletion(after, Ranking(ids, priorities), ids, pairs, RepairHard(m, c, hard))
  }

  /** The repairs made in the first `n` components. */
  ghost predicate RepairedUpTo(
    m: ConflictModel, priorities: Priorities, hard: Assignment, proposed: Assignment, decisions: Assignment, n: nat
  ) {
    && n <= |m.components|
    && forall k | 0 <= k < n && IsConflictComponent(m, m.components[k]) ::
         RepairedPart(m, m.components[k], priorities, hard, proposed, decisions)
  }

  ghost predicate RepairedPart(
    m: ConflictModel, c: seq<RobotId>, priorities: Priorities, hard: Assignment, proposed: Assignment, decisions: Assignment
  ) {
    RepairedBest(m, c, priorities, hard, Restrict(proposed, Elems(c)), Restrict(decisions, Elems(c)))
  }

  lemma RepairedNext(
    m: ConflictModel, priorities: Priorities, hard: Assignment, proposed: Assignment, decisions: Assignment, n: nat,
    after: Assignment
  )
    requires DisjointParts(m.components) && n < |m.components| && after.Keys == Elems(m.components[n])
    requires RepairedUpTo(m, priorities, hard, proposed, decisions, n)
    requires RepairedBest(m, m.components[n], priorities, hard, Restrict(proposed, Elems(m.components[n])), after)
    ensures RepairedUpTo(m, priorities, hard, proposed, decisions + after, n + 1)
  {
    hide RepairedBest, IsConflictComponent, DisjointParts, Restrict, Elems;
    OverrideRestricts(decisions, after, Elems(m.components[n]));
    forall k | 0 <= k < n && IsConflictComponent(m, m.components[k])
      ensures RepairedPart(m, m.components[k], priorities, hard, proposed, decisions + after)
    {
      PartsAreDisjoint(m.components, n, k);
      OverrideRestricts(decisions, after, Elems(m.components[k]));
      assert RepairedPart(m, m.components[k], priorities, hard, proposed, decisions);
    }
  }

  lemma RepairedSkips(
    m: ConflictModel, priorities: Priorities, hard: Assignment, proposed: Assignment, decisions: Assignment, n: nat
  )
    requires RepairedUpTo(m, priorities, hard, proposed, decisions, n)
    requires n < |m.components| && !IsConflictComponent(m, m.components[n])
    ensures RepairedUpTo(m, priorities, hard, proposed, decisions, n + 1)
  {
    hide RepairedPart, IsConflictComponent;
  }

  lemma NothingRepairedYet(
    m: ConflictModel, priorities: Priorities, hard: Assignment, proposed: Assignment, decisions: Assignment
  )
    ensures RepairedUpTo(m, priorities, hard, proposed, decisions, 0)
  {
  }

  /** The component is paused throughout and no repair exists. */
  ghost predicate DeadComponent(m: ConflictModel, c: seq<RobotId>, hard: Assignment, before: Assignment) {
    && IsConflictComponent(m, c)
    && AllPause(before)
    && !CanProgress(Elems(c), ComponentPairs(Elems(c), m.pairs), RepairHard(m, c, hard))
  }

  /** Every observed robot has its own priority breakdown. */
  predicate PrioritiesMatch(m: ConflictModel, priorities: Priorities) {
    priorities.Keys == m.snapshots.Keys && forall r | r in priorities :: priorities[r].robotId == r
  }

  /** The decisions after the first `n` components have been validated or repaired. */
  ghost predicate PreviewedUpTo(
    m: ConflictModel, hard: Assignment, proposed: Assignment, decisions: Assignment, unresolvable: bool, n: nat
  ) {
    && n <= |m.components|
    && decisions.Keys == proposed.Keys
    && (forall k | 0 <= k < |m.components| ::
          PartPreviewed(m, m.components[k], hard, proposed, decisions, k < n))
    && (unresolvable <==> exists k | 0 <= k < n :: DeadPart(m, m.components[k], hard, proposed))
  }

  ghost predicate PartPreviewed(
    m: ConflictModel, c: seq<RobotId>, hard: Assignment, proposed: Assignment, decisions: Assignment, done: bool
  ) {
    var before, after := Restrict(proposed, Elems(c)), Restrict(decisions, Elems(c));
    if done && IsConflictComponent(m, c) then PreviewedComponent(m, c, hard, before, after) else after == before
  }

  ghost predicate DeadPart(m: ConflictModel, c: seq<RobotId>, hard: Assignment, proposed: Assignment) {
    DeadComponent(m, c, hard, Restrict(proposed, Elems(c)))
  }

  /** The outcome of a preview over the whole fleet. */
  ghost predicate IsPreview(m: ConflictModel, hard: Assignment, proposed: Assignment, preview: Preview) {
    PreviewedUpTo(m, hard, proposed, preview.decisions, preview.unresolvable, |m.components|)
  }

  /** A conflict component whose objective does not fit the solver's integer range. */
  ghost predicate OverflowingPart(m: ConflictModel, c: seq<RobotId>, priorities: Priorities) {
    IsConflictComponent(m, c) && OverflowsOn(Elems(c), priorities)
  }

  /** Some robot of the component has another robot's priority breakdown. */
  predicate Misattributed(c: seq<RobotId>, priorities: Priorities) {
    exists r | r in c && r in priorities :: priorities[r].robotId != r
  }

  /** Why the preview of a component raises: repairing it is a malformed call, or overflows, or its moving
      proposal is unsafe or drops a retained grant. */
  ghost predicate Fails(
    m: ConflictModel, c: seq<RobotId>, hard: Assignment, before: Assignment, priorities: Priorities, error: Error
  ) {
    var ids := Elems(c);
    match error
    case InvalidInput => AllPause(before) && Misattributed(c, priorities)
    case ObjectiveOverflow => AllPause(before) && !Misattributed(c, priorities) && OverflowsOn(ids, priorities)
    case UnsafeResult =>
      !AllPause(before) && !SafeCompletion(before, ids, ComponentPairs(ids, m.pairs), Restrict(hard, ids))
    case _ => false
  }

  /** Repair a component that is paused throughout. */
  method RepairComponent(
    cfg: Config, m: ConflictModel, c: seq<RobotId>, hard: Assignment, ghost before: Assignment, priorities: Priorities
  )
    returns (r: Result<(Assignment, bool)>)
    requires OrderedPairs(m.pairs, m.snapshots.Keys) && IsComponent(m, c) && before == PauseAll(Elems(c))
    requires priorities.Keys == m.snapshots.Keys
    ensures r.Ok? ==>
      PreviewedComponent(m, c, hard, before, r.value.0)
      && r.value.0.Keys == Elems(c)
      && (r.value.1 <==> !CanProgress(Elems(c), ComponentPairs(Elems(c), m.pairs), RepairHard(m, c, hard)))
      && RepairedBest(m, c, priorities, hard, before, r.value.0)
    ensures r.Ok? ==> !Misattributed(c, priorities) && !OverflowsOn(Elems(c), priorities)
    ensures r.Raised? ==> Fails(m, c, hard, before, priorities, r.error)
  {
    hide OrderedPairs, CanProgress, DecidesExactly, Scored, OverflowsOn, ComponentPairs, IsComponent, Misattributed, ValidCall,
      RepairHard, PreviewedComponent, RepairedBest, Elems;
    RepairCallIsValid(m, c, priorities, hard);
    PausedKeysAre(Elems(c));
    var repair := Solve(cfg, c, m, priorities, RepairHard(m, c, hard));
    if repair.Raised? {
      return Raised(repair.error);
    }
    RepairSettles(m, c, hard, before, priorities, repair.value);
    if repair.value.feasible && repair.value.progressMade {
      return Ok((repair.value.decisions, false));
    }
    r := Ok((PauseAll(Elems(c)), true));
  }

  lemma PausedKeysAre(ids: set<RobotId>)
    ensures PauseAll(ids).Keys == ids && AllPause(PauseAll(ids))
  {
  }

  /** What an exact heuristic result means for a component that is paused throughout. */
  lemma RepairSettles(
    m: ConflictModel, c: seq<RobotId>, hard: Assignment, before: Assignment, priorities: Priorities, h: HeuristicResult
  )
    requires Scored(Ascending(Elems(c)), priorities) && before == PauseAll(Elems(c))
    requires DecidesExactly(h, Elems(c), ComponentPairs(Elems(c), m.pairs), RepairHard(m, c, hard), priorities)
    ensures var (after, moves) := if h.feasible && h.progressMade then (h.decisions, true) else (before, false);
            && PreviewedComponent(m, c, hard, before, after) && RepairedBest(m, c, priorities, hard, before, after)
            && after.Keys == Elems(c)
            && (moves <==> CanProgress(Elems(c), ComponentPairs(Elems(c), m.pairs), RepairHard(m, c, hard)))
  {
    hide DecidesExactly, CanProgress, PairsSafe, ComponentPairs, IsBestCompletion, RepairHard, Scored;
    PausedKeysAre(Elems(c));
    DecidedProgress(h, Elems(c), ComponentPairs(Elems(c), m.pairs), RepairHard(m, c, hard), priorities);
    DecidedBest(h, Elems(c), ComponentPairs(Elems(c), m.pairs), RepairHard(m, c, hard), priorities);
  }

  /** Validate one conflict component, or repair it if it is paused throughout. */
  method ValidateOrRepairComponent(
    cfg: Config, m: ConflictModel, c: seq<RobotId>, hard: Assignment, before: Assignment, priorities: Priorities
  )
    returns (r: Result<(Assignment, bool)>)
    requires OrderedPairs(m.pairs, m.snapshots.Keys) && IsComponent(m, c) && before.Keys == Elems(c)
    requires priorities.Keys == m.snapshots.Keys
    ensures r.Ok? ==>
      PreviewedComponent(m, c, hard, before, r.value.0)
      && r.value.0.Keys == Elems(c)
      && (r.value.1 <==>
            AllPause(before) && !CanProgress(Elems(c), ComponentPairs(Elems(c), m.pairs), RepairHard(m, c, hard)))
      && RepairedBest(m, c, priorities, hard, before, r.value.0)
    ensures r.Ok? ==> forall e :: !Fails(m, c, hard, before, priorities, e)
    ensures r.Raised? ==> Fails(m, c, hard, before, priorities, r.error)
  {
    hide OrderedPairs, CanProgress, PairsSafe, OverflowsOn, ComponentPairs, IsBestCompletion, IsComponent, Misattributed,
      RepairHard;
    if AllPause(before) {
      AllPauseIs(before);
      r := RepairComponent(cfg, m, c, hard, before, priorities);
    } else {
      var pairs := ComponentPairs(Elems(c), m.pairs);
      PairsWithinComponent(m, c);
      AcceptsSafeCompletions(c, before, pairs, Restrict(hard, Elems(c)));
      if !Accepts(c, before, pairs, Restrict(hard, Elems(c))) {
        return Raised(UnsafeResult);
      }
      r := Ok((before, false));
    }
  }

  lemma AllPauseIs(a: Assignment)
    requires AllPause(a)
    ensures PauseAll(a.Keys) == a
  {
  }

  lemma RepairCallIsValid(m: ConflictModel, c: seq<RobotId>, priorities: Priorities, hard: Assignment)
    requires IsComponent(m, c) && priorities.Keys == m.snapshots.Keys
    ensures ValidCall(c, m, priorities, RepairHard(m, c, hard)) <==> !Misattributed(c, priorities)
  {
  }

  /** A conflict component on whose proposal the preview raises. */
  ghost predicate FailingPart(
    m: ConflictModel, c: seq<RobotId>, hard: Assignment, proposed: Assignment, priorities: Priorities, error: Error
  ) {
    IsConflictComponent(m, c) && Fails(m, c, hard, Restrict(proposed, Elems(c)), priorities, error)
  }

  ghost predicate NoneFails(m: ConflictModel, hard: Assignment, proposed: Assignment, priorities: Priorities, n: nat) {
    && n <= |m.components|
    && forall k, e | 0 <= k < n :: !FailingPart(m, m.components[k], hard, proposed, priorities, e)
  }

  /** Validate moving components and repair paused ones, component by component. It raises exactly when some
      component fails. */
  method ValidateOrRepairComponents(
    cfg: Config, m: ConflictModel, hard: Assignment, proposed: Assignment, priorities: Priorities
  )
    returns (r: Result<Preview>)
    requires Usable(m) && proposed.Keys == priorities.Keys == m.snapshots.Keys
    ensures r.Ok? ==> IsPreview(m, hard, proposed, r.value)
    ensures r.Ok? ==> RepairedUpTo(m, priorities, hard, proposed, r.value.decisions, |m.components|)
    ensures r.Ok? ==> NoneFails(m, hard, proposed, priorities, |m.components|)
    ensures r.Raised? ==>
      exists k :: 0 <= k < |m.components| && FailingPart(m, m.components[k], hard, proposed, priorities, r.error)
  {
    hide OrderedPairs, IsComponent, PreviewedUpTo, PreviewedComponent, DisjointParts, InSome, CanProgress, Fails, NoneFails,
      RepairHard, RepairedUpTo, RepairedBest;
    var decisions, unresolvable := proposed, false;
    NothingPreviewedYet(m, hard, proposed);
    NothingRepairedYet(m, priorities, hard, proposed, decisions);
    NoneFailsYet(m, hard, proposed, priorities);
    for k := 0 to |m.components|
      invariant PreviewedUpTo(m, hard, proposed, decisions, unresolvable, k)
      invariant RepairedUpTo(m, priorities, hard, proposed, decisions, k)
      invariant NoneFails(m, hard, proposed, priorities, k)
    {
      var c := m.components[k];
      if |c| < 2 || !IsConflictComponent(m, c) {
        PreviewSkips(m, hard, proposed, decisions, unresolvable, k);
        RepairedSkips(m, priorities, hard, proposed, decisions, k);
        NextDoesNotFail(m, hard, proposed, priorities, k);
        continue;
      }
      var before := Restrict(decisions, Elems(c));
      NotYetPreviewed(m, hard, proposed, decisions, unresolvable, k);
      var outcome := ValidateOrRepairComponent(cfg, m, c, hard, before, priorities);
      if outcome.Raised? {
        assert FailingPart(m, m.components[k], hard, proposed, priorities, outcome.error);
        return Raised(outcome.error);
      }
      NextDoesNotFail(m, hard, proposed, priorities, k);
      PreviewNext(m, hard, proposed, decisions, unresolvable, k, outcome.value);
      RepairedNext(m, priorities, hard, proposed, decisions, k, outcome.value.0);
      decisions, unresolvable := decisions + outcome.value.0, unresolvable || outcome.value.1;
    }
    r := Ok(Preview(decisions, unresolvable));
  }

  lemma NoneFailsYet(m: ConflictModel, hard: Assignment, proposed: Assignment, priorities: Priorities)
    ensures NoneFails(m, hard, proposed, priorities, 0)
  {
  }

  lemma NextDoesNotFail(m: ConflictModel, hard: Assignment, proposed: Assignment, priorities: Priorities, n: nat)
    requires NoneFails(m, hard, proposed, priorities, n) && n < |m.components|
    requires !IsConflictComponent(m, m.components[n])
             || forall e :: !Fails(m, m.components[n], hard, Restrict(proposed, Elems(m.components[n])), priorities, e)
    ensures NoneFails(m, hard, proposed, priorities, n + 1)
  {
    hide IsConflictComponent, Fails;
  }

  lemma NothingPreviewedYet(m: ConflictModel, hard: Assignment, proposed: Assignment)
    ensures PreviewedUpTo(m, hard, proposed, proposed, false, 0)
  {
  }

  lemma PreviewSkips(
    m: ConflictModel, hard: Assignment, proposed: Assignment, decisions: Assignment, unresolvable: bool, k: nat
  )
    requires PreviewedUpTo(m, hard, proposed, decisions, unresolvable, k)
    requires k < |m.components| && !IsConflictComponent(m, m.components[k])
    ensures PreviewedUpTo(m, hard, proposed, decisions, unresolvable, k + 1)
  {
    hide IsConflictComponent, PreviewedComponent;
    assert PartPreviewed(m, m.components[k], hard, proposed, decisions, false);
    forall j | 0 <= j < |m.components|
      ensures PartPreviewed(m, m.components[j], hard, proposed, decisions, j < k + 1)
    {
      assert PartPreviewed(m, m.components[j], hard, proposed, decisions, j < k);
    }
  }

  /** The component about to be handled still has its proposed actions, and all of them. */
  lemma NotYetPreviewed(
    m: ConflictModel, hard: Assignment, proposed: Assignment, decisions: Assignment, unresolvable: bool, k: nat
  )
    requires Usable(m) && proposed.Keys == m.snapshots.Keys
    requires PreviewedUpTo(m, hard, proposed, decisions, unresolvable, k) && k < |m.components|
    ensures var ids := Elems(m.components[k]);
            Restrict(decisions, ids) == Restrict(proposed, ids) && Restrict(decisions, ids).Keys == ids
  {
    hide IsConflictComponent, PreviewedComponent, DeadPart;
    assert PartPreviewed(m, m.components[k], hard, proposed, decisions, false);
    assert IsComponent(m, m.components[k]);
  }

  lemma ThisPartPreviewed(
    m: ConflictModel, c: seq<RobotId>, hard: Assignment, proposed: Assignment, decisions: Assignment, a: Assignment
  )
    requires IsConflictComponent(m, c) && a.Keys == Elems(c)
    requires PreviewedComponent(m, c, hard, Restrict(proposed, Elems(c)), a)
    ensures PartPreviewed(m, c, hard, proposed, decisions + a, true)
  {
    hide IsConflictComponent, PreviewedComponent;
    OverrideRestricts(decisions, a, Elems(c));
  }

  lemma OtherPartPreviewed(
    m: ConflictModel, c: seq<RobotId>, hard: Assignment, proposed: Assignment, decisions: Assignment, a: Assignment,
    done: bool
  )
    requires PartPreviewed(m, c, hard, proposed, decisions, done) && Elems(c) !! a.Keys
    ensures PartPreviewed(m, c, hard, proposed, decisions + a, done)
  {
    hide IsConflictComponent, PreviewedComponent;
    OverrideRestricts(decisions, a, Elems(c));
  }

  lemma PreviewNext(
    m: ConflictModel, hard: Assignment, proposed: Assignment, decisions: Assignment, unresolvable: bool, k: nat,
    outcome: (Assignment, bool)
  )
    requires Usable(m) && proposed.Keys == m.snapshots.Keys
    requires PreviewedUpTo(m, hard, proposed, decisions, unresolvable, k) && k < |m.components|
    requires var c := m.components[k];
             && IsConflictComponent(m, c) && outcome.0.Keys == Elems(c)
             && PreviewedComponent(m, c, hard, Restrict(proposed, Elems(c)), outcome.0)
             && (outcome.1 <==> DeadPart(m, c, hard, proposed))
    ensures PreviewedUpTo(m, hard, proposed, decisions + outcome.0, unresolvable || outcome.1, k + 1)
  {
    hide IsConflictComponent, PreviewedComponent, DeadPart, IsComponent, Restrict, OrderedPairs, DisjointParts, InSome,
      Elems, PartPreviewed;
    ComponentAt(m, k);
    var next := decisions + outcome.0;
    NotYetPreviewed(m, hard, proposed, decisions, unresolvable, k);
    forall j | 0 <= j < |m.components|
      ensures PartPreviewed(m, m.components[j], hard, proposed, next, j < k + 1)
    {
      assert PartPreviewed(m, m.components[j], hard, proposed, decisions, j < k);
      if j == k {
        ThisPartPreviewed(m, m.components[k], hard, proposed, decisions, outcome.0);
      } else {
        PartsAreDisjoint(m.components, k, j);
        OtherPartPreviewed(m, m.components[j], hard, proposed, decisions, outcome.0, j < k);
      }
    }
    KeysUnchanged(m, decisions, outcome.0, k);
  }

  lemma PartsAreDisjoint(parts: seq<seq<RobotId>>, k: nat, j: nat)
    requires DisjointParts(parts) && k < |parts| && j < |parts| && j != k
    ensures Elems(parts[k]) !! Elems(parts[j])
  {
    forall r | r in parts[k]
      ensures r !in parts[j]
    {
    }
  }

  lemma KeysUnchanged(m: ConflictModel, decisions: Assignment, a: Assignment, k: nat)
    requires Usable(m) && decisions.Keys == m.snapshots.Keys && k < |m.components| && a.Keys == Elems(m.components[k])
    ensures (decisions + a).Keys == decisions.Keys
  {
    hide IsConflictComponent, OrderedPairs;
    assert IsComponent(m, m.components[k]);
    assert a.Keys <= decisions.Keys;
  }

  /** Feasibility of a Resume group in a component, decided by the heuristic with neutral priorities. */
  method GroupHasSafeCompletion(cfg: Config, m: ConflictModel, c: seq<RobotId>, group: set<RobotId>)
    returns (r: Result<bool>)
    requires OrderedPairs(m.pairs, m.snapshots.Keys) && IsComponent(m, c)
    requires group != {} && group <= Elems(c)
    ensures r.Ok? ==> (r.value <==> Completable(m, c, group))
    ensures r.Raised? ==> r.error == ObjectiveOverflow && NeutralOverflow(c)
  {
    hide IsComponent, Completable, OrderedPairs, OverflowsOn, ValidCall, CanProgress, ComponentPairs,
      Neutral, Scored, DecidesExactly;
    var unavailable := UnavailableIn(m, c);
    if group * unavailable != {} {
      GroupAvoidsUnavailable(m, c, group);
      return Ok(false);
    }
    var hard := GroupHard(m, c, group);
    NeutralCallIsValid(m, c, hard);
    var result := Solve(cfg, c, m, Neutral(c), hard);
    if result.Raised? {
      return Raised(ObjectiveOverflow);
    }
    DecidedProgress(result.value, Elems(c), ComponentPairs(Elems(c), m.pairs), hard, Neutral(c));
    GroupCompletionDecided(m, c, group);
    r := Ok(result.value.feasible && result.value.progressMade);
  }

  lemma NeutralCallIsValid(m: ConflictModel, c: seq<RobotId>, hard: Assignment)
    requires IsComponent(m, c) && hard.Keys <= Elems(c)
    ensures ValidCall(c, m, Neutral(c), hard)
  {
  }

  lemma GroupCompletionDecided(m: ConflictModel, c: seq<RobotId>, group: set<RobotId>)
    requires group <= Elems(c) && group !! UnavailableIn(m, c) && group != {}
    ensures Completable(m, c, group) <==>
            CanProgress(Elems(c), ComponentPairs(Elems(c), m.pairs), GroupHard(m, c, group))
  {
    var ids, pairs, hard := Elems(c), ComponentPairs(Elems(c), m.pairs), GroupHard(m, c, group);
    forall a
      ensures SafeCompletion(a, ids, pairs, hard) <==> Completion(m, c, a, group)
      ensures Completion(m, c, a, group) ==> HasResume(a)
    {
      GroupHardMeansCompletion(m, c, a, group);
      NonEmpty(group);
    }
    if Completable(m, c, group) {
      var a :| Completion(m, c, a, group);
      assert SafeCompletion(a, ids, pairs, hard) && HasResume(a);
    }
  }

  class GrantManager {
    const config: Config
    var tickId: nat
    var waitingAges: Ages
    var activeGrants: GrantTable
    var previousActions: Assignment
    var tickOpen: bool
    var currentHard: Assignment

    /** The invariant of the state machine. */
    ghost predicate Valid()
      reads this
    {
      && config.Valid()
      && LeasesOk(activeGrants, tickId, config)
      && previousActions.Keys == waitingAges.Keys
      && (tickOpen ==> tickId >= 1)
      && forall r | r in waitingAges :: 0 <= waitingAges[r] <= config.waitingAgeCap
    }

    constructor (config: Config)
      requires config.Valid()
      ensures Valid() && this.config == config
      ensures tickId == 0 && waitingAges == map[] && activeGrants == map[] && previousActions == map[]
      ensures !tickOpen && currentHard == map[]
    {
      this.config := config;
      tickId, waitingAges, activeGrants, previousActions := 0, map[], map[], map[];
      tickOpen, currentHard := false, map[];
    }

    /** A copy with no tick open, on which a decision can be tried out. */
    method Clone() returns (r: Result<GrantManager>)
      requires Valid()
      ensures r.Raised? <==> tickOpen
      ensures r.Raised? ==> r.error == TickAlreadyOpen
      ensures r.Ok? ==>
        var copy := r.value;
        && fresh(copy) && copy.Valid() && copy.config == config
        && copy.tickId == tickId && copy.waitingAges == waitingAges && copy.activeGrants == activeGrants
        && copy.previousActions == previousActions && !copy.tickOpen && copy.currentHard == map[]
    {
      if tickOpen {
        return Raised(TickAlreadyOpen);
      }
      var copy := new GrantManager(config);
      copy.tickId := tickId;
      copy.waitingAges := waitingAges;
      copy.activeGrants := activeGrants;
      copy.previousActions := previousActions;
      r := Ok(copy);
    }

    /** Revoke grants when an external safety validator overrides their holders. */
    method RevokeForSafety(robots: set<RobotId>) returns (r: Result<()>)
      requires Valid()
      modifies `activeGrants
      ensures Valid()
      ensures r == if tickOpen then Ok(()) else Raised(TickNotOpen)
      ensures activeGrants == if tickOpen then old(activeGrants) - robots else old(activeGrants)
    {
      if !tickOpen {
        return Raised(TickNotOpen);
      }
      hide FirstIds, Ascending, LeasesOk;
      ghost var before := activeGrants;
      var ordered := Ascending(robots);
      NoIds(ordered);
      assert before - {} == before;
      for n := 0 to |ordered|
        invariant activeGrants == before - FirstIds(ordered, n)
      {
        TakeOneMore(ordered, n, robots);
        RemoveOneMore(before, FirstIds(ordered, n), ordered[n]);
        activeGrants := activeGrants - {ordered[n]};
      }
      AllIds(ordered);
      FewerLeasesOk(before, robots, tickId, config);
      r := Ok(());
    }

    /** Forget absent robots' ages, and update or release every grant. */
    method ReconcileLifecycle(m: ConflictModel, nowMs: int)
      requires config.Valid()
      modifies `waitingAges, `previousActions, `activeGrants
      ensures waitingAges == ObservedAges(old(waitingAges), m)
      ensures previousActions ==
              map r | r in old(previousActions) && !(r in old(waitingAges) && r !in m.snapshots) :: old(previousActions)[r]
      ensures activeGrants == ReconcileAll(old(activeGrants), tickId, m, nowMs, config)
    {
      var disappeared := set r | r in waitingAges && r !in m.snapshots;
      waitingAges := waitingAges - disappeared;
      previousActions := previousActions - disappeared;
      ReconcileGrants(m, nowMs);
    }

    method ReconcileGrants(m: ConflictModel, nowMs: int)
      requires config.Valid()
      modifies `activeGrants
      ensures activeGrants == ReconcileAll(old(activeGrants), tickId, m, nowMs, config)
    {
      hide PartlyReconciled, ReconcileAll, Ascending, FirstIds;
      ghost var before := activeGrants;
      NoneReconciled(before, tickId, m, nowMs, config);
      var holders := Ascending(activeGrants.Keys);
      NoIds(holders);
      for n := 0 to |holders|
        invariant activeGrants == PartlyReconciled(before, FirstIds(holders, n), tickId, m, nowMs, config)
      {
        var r := holders[n];
        TakeOneMore(holders, n, before.Keys);
        ReconcileOneMore(before, FirstIds(holders, n), r, tickId, m, nowMs, config);
        match Reconcile(activeGrants[r], tickId, m, nowMs, config)
        case Retain(updated) => activeGrants := activeGrants[r := updated];
        case Release(_) => activeGrants := activeGrants - {r};
      }
      AllIds(holders);
      AllReconciled(before, Elems(holders), tickId, m, nowMs, config);
    }

    /** Release the conflicting holders of one component that cannot be completed together with the
        older retained ones. */
    method RetainInComponent(m: ConflictModel, c: seq<RobotId>, key: SortKey) returns (r: Result<set<RobotId>>)
      requires OrderedPairs(m.pairs, m.snapshots.Keys) && IsComponent(m, c)
      modifies `activeGrants
      ensures r.Raised? ==> r.error == ObjectiveOverflow && NeutralOverflow(c)
      ensures r.Ok? ==>
        var candidates := ConflictingHolders(m, c, old(activeGrants));
        && IsGreedyGroup(m, c, {}, candidates, r.value, key)
        && activeGrants == old(activeGrants) - (candidates - r.value)
    {
      var candidates := ConflictingHolders(m, c, activeGrants);
      var retained :- RetainOldestFirst(config, m, c, candidates, key);
      activeGrants := activeGrants - (candidates - retained);
      r := Ok(retained);
    }

    /** Retain only safe grants, resolving conflicts between them oldest first. */
    method SafeRelevantGrants(m: ConflictModel) returns (r: Result<Assignment>)
      requires Usable(m)
      modifies `activeGrants
      ensures r.Raised? ==> r.error == ObjectiveOverflow && SomeNeutralOverflow(m)
      ensures r.Ok? ==> RetainedExactly(m, old(activeGrants), r.value, activeGrants)
    {
      hide Completable, OrderedPairs, IsComponent, NeutralOverflow, IsGreedyGroup, RetainedUpTo, InSome, DisjointParts,
        ConflictingHolders;
      ghost var before := activeGrants;
      var key := AgeKey(activeGrants);
      var hard: Assignment := map[];
      NothingRetainedYet(m, before);
      for k := 0 to |m.components|
        invariant RetainedUpTo(m, before, hard, activeGrants, k)
      {
        ghost var current := activeGrants;
        var retained := RetainInComponent(m, m.components[k], key);
        if retained.Raised? {
          return Raised(ObjectiveOverflow);
        }
        RetainNext(m, before, hard, current, k, retained.value);
        hard := hard + ResumeAll(retained.value);
      }
      r := Ok(hard);
    }

    /** Consider one robot for acquisition, after all robots before it. */
    method AcquireOne(
      m: ConflictModel, decisions: Assignment, robot: RobotId, acquired: set<RobotId>, ghost before: GrantTable,
      ghost done: set<RobotId>
    )
      returns (r: Result<set<RobotId>>)
      requires Usable(m) && decisions.Keys == m.snapshots.Keys && robot in decisions
      requires robot !in done && forall q | q in done :: q < robot
      requires AcquiredAmong(m, before, decisions, acquired, done)
      requires activeGrants == before + NewGrants(acquired, tickId)
      modifies `activeGrants
      ensures r.Raised? ==> r.error == ObjectiveOverflow && SomeNeutralOverflow(m)
      ensures r.Ok? ==>
        && AcquiredAmong(m, before, decisions, r.value, done + {robot})
        && activeGrants == before + NewGrants(r.value, tickId)
    {
      hide Completable, OrderedPairs, IsComponent, NeutralOverflow, AcquiredIn, DisjointParts, InSome;
      var k := PartOf(m.components, robot);
      AlreadyHolding(before, acquired, done, robot, tickId);
      if decisions[robot] != Resume || robot in activeGrants || m.Unavailable(robot) || !m.HasConflict(robot) {
        AcquireNext(m, before, decisions, acquired, done, robot, k, false);
        return Ok(acquired);
      }
      var c := m.components[k];
      var group := HoldersIn(c, activeGrants) + {robot};
      GroupSoFar(c, before, acquired, tickId);
      var accept := GroupHasSafeCompletion(config, m, c, group);
      if accept.Raised? {
        return Raised(ObjectiveOverflow);
      }
      AcquireNext(m, before, decisions, acquired, done, robot, k, accept.value);
      if !accept.value {
        return Ok(acquired);
      }
      OneMoreGrant(before, acquired, robot, tickId);
      activeGrants := activeGrants[robot := GrantRecord(robot, tickId, tickId, 0)];
      r := Ok(acquired + {robot});
    }

    /** Grant right of way to safe Resumes that take part in a conflict, in ascending robot order. */
    method AcquireGrants(m: ConflictModel, decisions: Assignment) returns (r: Result<set<RobotId>>)
      requires Usable(m) && decisions.Keys == m.snapshots.Keys
      modifies `activeGrants
      ensures r.Raised? ==> r.error == ObjectiveOverflow && SomeNeutralOverflow(m)
      ensures r.Ok? ==>
        && AcquiredAmong(m, old(activeGrants), decisions, r.value, m.snapshots.Keys)
        && activeGrants == old(activeGrants) + NewGrants(r.value, tickId)
    {
      hide Usable, AcquiredAmong, NewGrants, FirstIds, Ascending, SomeNeutralOverflow;
      ghost var before := activeGrants;
      var acquired: set<RobotId> := {};
      var ordered := Ascending(decisions.Keys);
      NothingAcquiredYet(m, before, decisions, tickId);
      NoIds(ordered);
      for n := 0 to |ordered|
        invariant AcquiredAmong(m, before, decisions, acquired, FirstIds(ordered, n))
        invariant activeGrants == before + NewGrants(acquired, tickId)
      {
        TakeOneMore(ordered, n, decisions.Keys);
        var next := AcquireOne(m, decisions, ordered[n], acquired, before, FirstIds(ordered, n));
        if next.Raised? {
          return Raised(ObjectiveOverflow);
        }
        acquired := next.value;
      }
      AllIds(ordered);
      r := Ok(acquired);
    }

    /** A robot that moves or has arrived stops waiting; any other waits one tick more. */
    method AgeRobot(r: RobotId, action: Action, atGoal: bool)
      modifies `waitingAges, `previousActions
      ensures var age := if action == Resume || atGoal then 0 else Min(AgeOf(old(waitingAges), r) + 1, config.waitingAgeCap);
              waitingAges == old(waitingAges)[r := age]
      ensures previousActions == old(previousActions)[r := action]
    {
      if action == Resume || atGoal {
        waitingAges := waitingAges[r := 0];
      } else {
        waitingAges := waitingAges[r := Min(AgeOf(waitingAges, r) + 1, config.waitingAgeCap)];
      }
      previousActions := previousActions[r := action];
    }

    /** Age every observed robot, in ascending order. */
    method AgeObserved(m: ConflictModel, decisions: Assignment, ghost ages: Ages)
      requires decisions.Keys == m.snapshots.Keys
      requires waitingAges == PartlyAged(ages, {}, m, decisions, config.waitingAgeCap)
      modifies `waitingAges, `previousActions
      ensures waitingAges == PartlyAged(ages, m.snapshots.Keys, m, decisions, config.waitingAgeCap)
      ensures previousActions == old(previousActions) + decisions
    {
      hide PartlyAged, Restrict, Ascending, AgeOf, StrictlyAscending, FirstIds, Min;
      ghost var previous := previousActions;
      var ordered := Ascending(m.snapshots.Keys);
      NoIds(ordered);
      NoneRestricted(previous, decisions);
      for n := 0 to |ordered|
        invariant waitingAges == PartlyAged(ages, FirstIds(ordered, n), m, decisions, config.waitingAgeCap)
        invariant previousActions == previous + Restrict(decisions, FirstIds(ordered, n))
      {
        TakeOneMore(ordered, n, m.snapshots.Keys);
        AgeOneMore(ages, FirstIds(ordered, n), ordered[n], m, decisions, config.waitingAgeCap);
        RestrictOneMore(previous, decisions, FirstIds(ordered, n), ordered[n]);
        AgeRobot(ordered[n], decisions[ordered[n]], m.snapshots[ordered[n]].atGoal);
      }
      AllIds(ordered);
    }

    /** Update capped waiting ages and previous actions for the observed robots. */
    method UpdateFairness(m: ConflictModel, decisions: Assignment)
      requires decisions.Keys == m.snapshots.Keys && previousActions.Keys == waitingAges.Keys
      modifies `waitingAges, `previousActions
      ensures waitingAges == FairnessStep(old(waitingAges), WaitingRecord(m, decisions), config.waitingAgeCap)
      ensures previousActions == decisions
    {
      hide PartlyAged, WaitingRecord, FairnessStep;
      ghost var ages := waitingAges;
      var gone := set r | r in waitingAges && r !in m.snapshots;
      NoneAged(ages, m, decisions, config.waitingAgeCap);
      waitingAges, previousActions := waitingAges - gone, previousActions - gone;
      ghost var previous := previousActions;
      AgeObserved(m, decisions, ages);
      AllAged(ages, m, decisions, config.waitingAgeCap, previous);
    }

    /** Advance the tick and return the safety-checked hard Resume assignments. */
    method PrepareTick(m: ConflictModel, nowMs: int) returns (r: Result<Assignment>)
      requires Valid() && Usable(m)
      modifies this
      ensures old(tickOpen) ==> r == Raised(TickAlreadyOpen) && unchanged(this)
      ensures !old(tickOpen) && nowMs < 0 ==> r == Raised(InvalidInput) && unchanged(this)
      ensures r.Raised? && !old(tickOpen) && nowMs >= 0 ==> r.error == ObjectiveOverflow && SomeNeutralOverflow(m)
      ensures r.Ok? ==>
        && Valid() && tickOpen && tickId == old(tickId) + 1 && currentHard == r.value
        && waitingAges == ObservedAges(old(waitingAges), m)
        && RetainedExactly(m, ReconcileAll(old(activeGrants), tickId, m, nowMs, config), r.value, activeGrants)
        && forall q | q in activeGrants && q in m.snapshots ::
             activeGrants[q].lastSeenTick == tickId && !m.snapshots[q].Unavailable()
    {
      if tickOpen {
        return Raised(TickAlreadyOpen);
      }
      if nowMs < 0 {
        return Raised(InvalidInput);
      }
      hide Valid, Usable, RetainedExactly, SomeNeutralOverflow, ReconcileAll;
      r := OpenTick(m, nowMs);
    }

    method OpenTick(m: ConflictModel, nowMs: int) returns (r: Result<Assignment>)
      requires Valid() && Usable(m)
      modifies this
      ensures r.Raised? ==> r.error == ObjectiveOverflow && SomeNeutralOverflow(m)
      ensures r.Ok? ==>
        && Valid() && tickOpen && tickId == old(tickId) + 1 && currentHard == r.value
        && waitingAges == ObservedAges(old(waitingAges), m)
        && RetainedExactly(m, ReconcileAll(old(activeGrants), tickId, m, nowMs, config), r.value, activeGrants)
        && forall q | q in activeGrants && q in m.snapshots ::
             activeGrants[q].lastSeenTick == tickId && !m.snapshots[q].Unavailable()
    {
      hide Usable, RetainedExactly, SomeNeutralOverflow, Reconcile, ReconcileAll, LeaseOk;
      ghost var before := activeGrants;
      ReconcileKeepsLeases(before, tickId, m, nowMs, config);
      tickId := tickId + 1;
      tickOpen := true;
      ReconcileLifecycle(m, nowMs);
      ghost var reconciled := activeGrants;
      r := SafeRelevantGrants(m);
      if r.Raised? {
        return;
      }
      currentHard := r.value;
      RetainedIsSubset(m, reconciled, r.value, activeGrants);
    }

    /** Validate and repair proposed actions without committing anything. */
    method PreviewTick(m: ConflictModel, proposed: Assignment, priorities: Priorities) returns (r: Result<Preview>)
      requires Valid() && Usable(m)
      ensures !tickOpen ==> r == Raised(TickNotOpen)
      ensures tickOpen && (proposed.Keys != m.snapshots.Keys || priorities.Keys != m.snapshots.Keys) ==>
                r == Raised(InvalidInput)
      ensures tickOpen && proposed.Keys == m.snapshots.Keys && priorities.Keys == m.snapshots.Keys ==>
        && (r.Ok? ==>
              IsPreview(m, currentHard, proposed, r.value)
              && RepairedUpTo(m, priorities, currentHard, proposed, r.value.decisions, |m.components|))
        && (r.Ok? ==> NoneFails(m, currentHard, proposed, priorities, |m.components|))
        && (r.Raised? ==>
              exists k :: 0 <= k < |m.components|
                          && FailingPart(m, m.components[k], currentHard, proposed, priorities, r.error))
    {
      if !tickOpen {
        return Raised(TickNotOpen);
      }
      if proposed.Keys != m.snapshots.Keys || priorities.Keys != m.snapshots.Keys {
        return Raised(InvalidInput);
      }
      r := ValidateOrRepairComponents(config, m, currentHard, proposed, priorities);
    }

    /** Commit a reviewed decision: acquire grants, update fairness and close the tick. */
    method CommitTick(m: ConflictModel, decisions: Assignment) returns (r: Result<set<RobotId>>)
      requires Valid() && Usable(m)
      modifies this
      ensures !old(tickOpen) ==> r == Raised(TickNotOpen) && unchanged(this)
      ensures old(tickOpen) && decisions.Keys != m.snapshots.Keys ==> r == Raised(InvalidInput) && unchanged(this)
      ensures old(tickOpen) && decisions.Keys == m.snapshots.Keys ==>
        && !tickOpen && tickId == old(tickId)
        && (r.Raised? ==> r.error == ObjectiveOverflow && SomeNeutralOverflow(m))
        && (r.Ok? ==>
              && Valid()
              && AcquiredAmong(m, old(activeGrants), decisions, r.value, m.snapshots.Keys)
              && activeGrants == old(activeGrants) + NewGrants(r.value, tickId)
              && waitingAges == FairnessStep(old(waitingAges), WaitingRecord(m, decisions), config.waitingAgeCap)
              && previousActions == decisions)
    {
      if !tickOpen {
        return Raised(TickNotOpen);
      }
      if decisions.Keys != m.snapshots.Keys {
        return Raised(InvalidInput);
      }
      hide Valid, Usable, AcquiredAmong, SomeNeutralOverflow, FairnessStep, WaitingRecord, NewGrants;
      r := CloseTick(m, decisions);
    }

    method CloseTick(m: ConflictModel, decisions: Assignment) returns (r: Result<set<RobotId>>)
      requires Valid() && Usable(m) && decisions.Keys == m.snapshots.Keys && tickOpen
      modifies this
      ensures !tickOpen && tickId == old(tickId)
      ensures r.Raised? ==> r.error == ObjectiveOverflow && SomeNeutralOverflow(m)
      ensures r.Ok? ==>
        && Valid()
        && AcquiredAmong(m, old(activeGrants), decisions, r.value, m.snapshots.Keys)
        && activeGrants == old(activeGrants) + NewGrants(r.value, tickId)
        && waitingAges == FairnessStep(old(waitingAges), WaitingRecord(m, decisions), config.waitingAgeCap)
        && previousActions == decisions
    {
      hide Usable, AcquiredAmong, SomeNeutralOverflow;
      r := AcquireGrants(m, decisions);
      if r.Ok? {
        UpdateFairness(m, decisions);
      }
      tickOpen := false;
    }
  }

  /** The index of the component of a robot. */
  function PartOf(parts: seq<seq<RobotId>>, r: RobotId): (k: nat)
    requires InSome(parts, r)
    ensures k < |parts| && r in parts[k]
  {
    if r in parts[0] then
      0
    else
      assert InSome(parts[1..], r) by {
        var k :| 0 <= k < |parts| && r in parts[k];
        assert r in parts[1..][k - 1];
      }
      1 + PartOf(parts[1..], r)
  }

  /** Accept candidates in order as long as the accepted group can still be completed. */
  method RetainOldestFirst(cfg: Config, m: ConflictModel, c: seq<RobotId>, candidates: set<RobotId>, key: SortKey)
    returns (r: Result<set<RobotId>>)
    requires OrderedPairs(m.pairs, m.snapshots.Keys) && IsComponent(m, c) && candidates <= Elems(c)
    ensures r.Raised? ==> r.error == ObjectiveOverflow && NeutralOverflow(c)
    ensures r.Ok? ==> IsGreedyGroup(m, c, {}, candidates, r.value, key)
  {
    hide IsComponent, Completable, OrderedPairs, NeutralOverflow, GreedyPrefix, IsGreedyGroup, SortedBy;
    var ordered := Sort(candidates, key);
    var retained: set<RobotId> := {};
    GreedyStart(m, c, {}, ordered, key);
    for n := 0 to |ordered|
      invariant GreedyPrefix(m, c, {}, ordered, n, retained, key)
      invariant retained <= candidates
    {
      var robot := ordered[n];
      assert robot in candidates;
      assert {} + retained + {robot} == retained + {robot};
      var accept :- GroupHasSafeCompletion(cfg, m, c, retained + {robot});
      GreedyStep(m, c, {}, ordered, n, retained, key, accept);
      if accept {
        retained := retained + {robot};
      }
    }
    GreedyDone(m, c, {}, ordered, retained, key);
    assert Elems(ordered) == candidates;
    r := Ok(retained);
  }

  ghost predicate SomeNeutralOverflow(m: ConflictModel) {
    exists k | 0 <= k < |m.components| :: NeutralOverflow(m.components[k])
  }

  lemma NothingRetainedYet(m: ConflictModel, grants: GrantTable)
    ensures RetainedUpTo(m, grants, map[], grants, 0)
  {
  }

  /** Waiting ages of the robots that are still observed. */
  function ObservedAges(ages: Ages, m: ConflictModel): Ages {
    map r | r in ages && r in m.snapshots :: ages[r]
  }

  /** Which observed robots waited under the committed decisions. */
  function WaitingRecord(m: ConflictModel, decisions: Assignment): TickRecord
    requires decisions.Keys == m.snapshots.Keys
  {
    map r | r in m.snapshots :: !(decisions[r] == Resume || m.snapshots[r].atGoal)
  }

  /** Waiting ages when the robots of `done` have been updated and absent robots dropped. */
  ghost function PartlyAged(ages: Ages, done: set<RobotId>, m: ConflictModel, decisions: Assignment, cap: int): Ages
    requires decisions.Keys == m.snapshots.Keys
  {
    var next := FairnessStep(ages, WaitingRecord(m, decisions), cap);
    map r | r in m.snapshots && (r in done || r in ages) :: if r in done then next[r] else ages[r]
  }

  lemma AgeOneMore(
    ages: Ages, done: set<RobotId>, r: RobotId, m: ConflictModel, decisions: Assignment, cap: int
  )
    requires decisions.Keys == m.snapshots.Keys && r in m.snapshots && r !in done
    ensures var current := PartlyAged(ages, done, m, decisions, cap);
            && AgeOf(current, r) == AgeOf(ages, r)
            && PartlyAged(ages, done + {r}, m, decisions, cap)
               == current[r := if decisions[r] == Resume || m.snapshots[r].atGoal then 0 else Min(AgeOf(ages, r) + 1, cap)]
  {
  }

  lemma NoneAged(ages: Ages, m: ConflictModel, decisions: Assignment, cap: int)
    requires decisions.Keys == m.snapshots.Keys
    ensures ages - (set r | r in ages && r !in m.snapshots) == PartlyAged(ages, {}, m, decisions, cap)
  {
  }

  lemma NoneRestricted(base: Assignment, decisions: Assignment)
    ensures base + Restrict(decisions, {}) == base
    ensures Restrict(decisions, decisions.Keys) == decisions
  {
  }

  lemma AllAged(ages: Ages, m: ConflictModel, decisions: Assignment, cap: int, previous: Assignment)
    requires decisions.Keys == m.snapshots.Keys && previous.Keys <= decisions.Keys
    ensures previous + decisions == decisions
    ensures PartlyAged(ages, m.snapshots.Keys, m, decisions, cap)
            == FairnessStep(ages, WaitingRecord(m, decisions), cap)
  {
  }

  lemma RestrictOneMore(base: Assignment, decisions: Assignment, done: set<RobotId>, r: RobotId)
    requires r in decisions
    ensures base + Restrict(decisions, done + {r}) == (base + Restrict(decisions, done))[r := decisions[r]]
  {
  }

  lemma RetainedIsSubset(m: ConflictModel, before: GrantTable, hard: Assignment, after: GrantTable)
    requires RetainedExactly(m, before, hard, after)
    ensures forall r | r in after :: r in before && after[r] == before[r]
  {
  }

  lemma NothingAcquiredYet(m: ConflictModel, before: GrantTable, decisions: Assignment, tick: int)
    ensures AcquiredAmong(m, before, decisions, {}, {})
    ensures before + NewGrants({}, tick) == before
  {
  }

  lemma AlreadyHolding(before: GrantTable, acquired: set<RobotId>, done: set<RobotId>, r: RobotId, tick: int)
    requires acquired <= done && r !in done
    ensures r in before + NewGrants(acquired, tick) <==> r in before
  {
  }

  lemma GroupSoFar(c: seq<RobotId>, before: GrantTable, acquired: set<RobotId>, tick: int)
    ensures HoldersIn(c, before + NewGrants(acquired, tick)) == HoldersIn(c, before) + acquired * Elems(c)
  {
  }

  lemma OneMoreGrant(before: GrantTable, acquired: set<RobotId>, r: RobotId, tick: int)
    ensures (before + NewGrants(acquired, tick))[r := GrantRecord(r, tick, tick, 0)]
            == before + NewGrants(acquired + {r}, tick)
  {
  }

  lemma RemoveOneMore(grants: GrantTable, done: set<RobotId>, r: RobotId)
    ensures grants - done - {r} == grants - (done + {r})
  {
  }

  lemma FewerLeasesOk(grants: GrantTable, removed: set<RobotId>, tick: int, cfg: Config)
    requires cfg.Valid() && LeasesOk(grants, tick, cfg)
    ensures LeasesOk(grants - removed, tick, cfg)
  {
  }

  lemma ReconcileOneMore(
    before: GrantTable, done: set<RobotId>, r: RobotId, tick: int, m: ConflictModel, nowMs: int, cfg: Config
  )
    requires cfg.Valid() && r in before && r !in done
    ensures var current := PartlyReconciled(before, done, tick, m, nowMs, cfg);
            && r in current && current[r] == before[r]
            && PartlyReconciled(before, done + {r}, tick, m, nowMs, cfg) ==
               match Reconcile(before[r], tick, m, nowMs, cfg)
               case Retain(updated) => current[r := updated]
               case Release(_) => current - {r}
  {
  }

  lemma NoneReconciled(before: GrantTable, tick: int, m: ConflictModel, nowMs: int, cfg: Config)
    requires cfg.Valid()
    ensures PartlyReconciled(before, {}, tick, m, nowMs, cfg) == before
  {
  }

  lemma AllReconciled(before: GrantTable, done: set<RobotId>, tick: int, m: ConflictModel, nowMs: int, cfg: Config)
    requires cfg.Valid() && done == before.Keys
    ensures PartlyReconciled(before, done, tick, m, nowMs, cfg) == ReconcileAll(before, tick, m, nowMs, cfg)
  {
  }

  /** The table after the robots of `done` have been reconciled. */
  ghost function PartlyReconciled(
    before: GrantTable, done: set<RobotId>, tick: int, m: ConflictModel, nowMs: int, cfg: Config
  ): GrantTable
    requires cfg.Valid()
  {
    map r | r in before && (r in done ==> Reconcile(before[r], tick, m, nowMs, cfg).Retain?) ::
      if r in done then Reconcile(before[r], tick, m, nowMs, cfg).record else before[r]
  }
}
