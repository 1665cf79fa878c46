/** Why one tick is safe: from proposals, retained grants and previews to geometry. */
module TickSafety {
  import opened Basics
  import opened Components
  import opened Conflicts
  import opened Decomposition
  import opened Geometry
  import opened GrantManagement
  import opened GrantRules
  import opened Heuristic
  import opened Models
  import opened Optimiser

  // ---------------------------------------------------------------- geometry

  /** No two robots' envelopes meet under the given actions. */
  ghost predicate AllApart(m: ConflictModel, k: Kernel, a: Assignment) {
    forall i, j | i in m.snapshots && j in m.snapshots && i < j :: !Clash(m, k, a, i, j)
  }

  /** No two stationary footprints meet. */
  ghost predicate FootprintsApart(m: ConflictModel, k: Kernel) {
    AllApart(m, k, PauseAll(m.snapshots.Keys))
  }

  /** The table entry of a pair says whether its envelopes meet. */
  lemma ClashIsUnsafe(m: ConflictModel, k: Kernel, a: Assignment, i: RobotId, j: RobotId)
    requires IdsMatch(m.snapshots) && Sound(k) && Faithful(m, k) && a.Keys == m.snapshots.Keys
    requires i in m.snapshots && j in m.snapshots && i < j
    ensures var p := Evaluate(k, m.snapshots[i], m.snapshots[j]);
            p in m.pairs && p.robotI == i && p.robotJ == j && (Clash(m, k, a, i, j) <==> !PairSafe(p, a))
  {
  }

  /** Safety of the table entries is exactly geometric separation. */
  lemma SafeIsApart(m: ConflictModel, k: Kernel, a: Assignment)
    requires WellFormedModel(m) && Sound(k) && Faithful(m, k) && a.Keys == m.snapshots.Keys
    ensures FleetSafe(m, a) <==> AllApart(m, k, a)
  {
    hide EdgesAreConflicts, IsolatedHaveNoConflict, IsPartition, PartsAreConnected, PairsSorted, Clash, Sound;
    if FleetSafe(m, a) {
      forall i, j | i in m.snapshots && j in m.snapshots && i < j
        ensures !Clash(m, k, a, i, j)
      {
        ClashIsUnsafe(m, k, a, i, j);
      }
    }
    if AllApart(m, k, a) {
      forall p | p in m.pairs
        ensures PairSafe(p, a)
      {
        ClashIsUnsafe(m, k, a, p.robotI, p.robotJ);
      }
    }
  }

  /** Pausing shrinks the occupied region, so it never makes a safe pair unsafe. */
  lemma PausingKeepsPairSafe(m: ConflictModel, k: Kernel, p: Compatibility, x: Action, y: Action)
    requires Sound(k) && Faithful(m, k) && p in m.pairs && p.IsSafe(x, y)
    ensures p.IsSafe(Pause, Pause) && p.IsSafe(Pause, y) && p.IsSafe(x, Pause)
  {
    var i, j := m.snapshots[p.robotI], m.snapshots[p.robotJ];
    PauseWithinResume(k, i, x);
    PauseWithinResume(k, j, y);
    forall u, v | u in {Pause, x} && v in {Pause, y}
      ensures !Overlap(Envelope(k, i, u), Envelope(k, j, v))
    {
      assert !Overlap(Envelope(k, i, x), Envelope(k, j, y));
    }
  }

  /** A component that has any safe assignment is safe when everybody Pauses. */
  lemma PausingKeepsComponentSafe(m: ConflictModel, k: Kernel, c: seq<RobotId>, a: Assignment)
    requires Sound(k) && Faithful(m, k) && ComponentSafe(m, c, a)
    ensures ComponentSafe(m, c, PauseAll(Elems(c)))
  {
    hide Sound, Faithful;
    forall p | p in ComponentPairs(Elems(c), m.pairs)
      ensures PairSafe(p, PauseAll(Elems(c)))
    {
      assert PairSafe(p, a);
      PausingKeepsPairSafe(m, k, p, a[p.robotI], a[p.robotJ]);
    }
  }

  /** A component can be completed at all exactly when its stationary footprints are apart. */
  lemma CompletableWhenPausable(m: ConflictModel, k: Kernel, c: seq<RobotId>)
    requires Sound(k) && Faithful(m, k)
    ensures Completable(m, c, {}) <==> ComponentSafe(m, c, PauseAll(Elems(c)))
  {
    hide Sound, Faithful, ComponentSafe;
    if Completable(m, c, {}) {
      var a :| Completion(m, c, a, {});
      PausingKeepsComponentSafe(m, k, c, a);
    }
    if ComponentSafe(m, c, PauseAll(Elems(c))) {
      assert Completion(m, c, PauseAll(Elems(c)), {});
    }
  }

  /** All footprints are apart exactly when every component can be completed. */
  lemma FootprintsApartWhenCompletable(m: ConflictModel, k: Kernel)
    requires WellFormedModel(m) && Sound(k) && Faithful(m, k)
    ensures FootprintsApart(m, k) <==> forall n | 0 <= n < |m.components| :: Completable(m, m.components[n], {})
  {
    hide WellFormedModel, Sound, Faithful, AllApart, ComponentSafe, Completable;
    var paused := PauseAll(m.snapshots.Keys);
    SafeIsApart(m, k, paused);
    SafetyDecomposes(m, paused);
    forall n | 0 <= n < |m.components|
      ensures Completable(m, m.components[n], {})
              <==> ComponentSafe(m, m.components[n], Restrict(paused, Elems(m.components[n])))
    {
      CompletableWhenPausable(m, k, m.components[n]);
      ComponentWithinFleet(m, n);
      assert Restrict(paused, Elems(m.components[n])) == PauseAll(Elems(m.components[n]));
    }
  }

  // ---------------------------------------------------------------- proposals

  /** The retained grants of a component. */
  function GroupOf(c: seq<RobotId>, hard: Assignment): set<RobotId> {
    Elems(c) * hard.Keys
  }

  /** What the component solvers propose: a completion of the retained grants, or all Pause when
      there is none. */
  ghost predicate ProposedPart(m: ConflictModel, c: seq<RobotId>, group: set<RobotId>, a: Assignment) {
    Completion(m, c, a, group) || (AllPause(a) && a.Keys == Elems(c) && !Completable(m, c, group))
  }

  /** What a component ends up with: progress whenever progress is possible, and a completion of the
      retained grants unless the component is hopeless even when paused. */
  ghost predicate DecidedPart(m: ConflictModel, c: seq<RobotId>, group: set<RobotId>, a: Assignment) {
    && a.Keys == Elems(c)
    && (HasResume(a) <==> ProgressPossible(m, c))
    && (Completion(m, c, a, group) || (AllPause(a) && !Completable(m, c, {})))
  }

  lemma RepairHardIsGroupHard(m: ConflictModel, c: seq<RobotId>, hard: Assignment)
    requires GroupOf(c, hard) == {}
    ensures RepairHard(m, c, hard) == GroupHard(m, c, {})
  {
  }

  lemma ProgressIsCanProgress(m: ConflictModel, c: seq<RobotId>)
    ensures ProgressPossible(m, c)
            <==> CanProgress(Elems(c), ComponentPairs(Elems(c), m.pairs), GroupHard(m, c, {}))
  {
    hide Completion, SafeCompletion, GroupHard;
    forall a
      ensures SafeCompletion(a, Elems(c), ComponentPairs(Elems(c), m.pairs), GroupHard(m, c, {}))
              <==> Completion(m, c, a, {})
    {
      GroupHardMeansCompletion(m, c, a, {});
    }
  }

  /** A proposal that moves nobody retains no grant. */
  lemma PausedProposalHasNoGroup(m: ConflictModel, c: seq<RobotId>, group: set<RobotId>, a: Assignment)
    requires ProposedPart(m, c, group, a) && AllPause(a) && (group == {} || Completable(m, c, group))
    ensures group == {}
  {
    hide ComponentSafe;
    if group != {} {
      NonEmpty(group);
    }
  }

  /** The preview turns any admissible proposal into an exact decision for the component, and raises
      the liveness alarm exactly when no safe assignment makes progress. */
  lemma PreviewDecides(m: ConflictModel, c: seq<RobotId>, hard: Assignment, before: Assignment, after: Assignment)
    requires forall r | r in hard :: hard[r] == Resume
    requires var group := GroupOf(c, hard);
             ProposedPart(m, c, group, before) && (group == {} || Completable(m, c, group))
    requires PreviewedComponent(m, c, hard, before, after) && IsConflictComponent(m, c)
    ensures DecidedPart(m, c, GroupOf(c, hard), after)
    ensures DeadComponent(m, c, hard, before) <==> !ProgressPossible(m, c)
  {
    hide PairsSafe, SafeCompletion, IsConflictComponent, CanProgress;
    var group := GroupOf(c, hard);
    if AllPause(before) {
      PausedProposalHasNoGroup(m, c, group, before);
      RepairHardIsGroupHard(m, c, hard);
      ProgressIsCanProgress(m, c);
      GroupHardMeansCompletion(m, c, after, {});
    } else {
      assert Completion(m, c, before, group) && after == before;
      assert HasResume(after) && Completion(m, c, after, {});
    }
  }

  /** In every conflict component the retained grants can be completed together. */
  lemma RetainedGroupCompletes(m: ConflictModel, before: GrantTable, hard: Assignment, after: GrantTable, n: nat)
    requires RetainedExactly(m, before, hard, after) && n < |m.components|
    requires DisjointParts(m.components)
    ensures var group := GroupOf(m.components[n], hard);
            group == {} || Completable(m, m.components[n], group)
  {
    hide Completable, IsGreedyGroup;
    var c := m.components[n];
    var holders := ConflictingHolders(m, c, before);
    assert RetainedIn(m, c, before, hard);
    assert holders * hard.Keys == GroupOf(c, hard);
    if GroupOf(c, hard) != {} {
      GreedyGroupCompletes(m, c, {}, holders, holders * hard.Keys, AgeKey(before));
      assert {} + holders * hard.Keys == GroupOf(c, hard);
    }
  }

  // ---------------------------------------------------------------- whole-fleet decisions

  /** Every component is either safely completed or hopeless and paused throughout. */
  ghost predicate IsSettled(m: ConflictModel, decisions: Assignment) {
    && decisions.Keys == m.snapshots.Keys
    && forall n | 0 <= n < |m.components| :: SettledPart(m, m.components[n], Restrict(decisions, Elems(m.components[n])))
  }

  ghost predicate SettledPart(m: ConflictModel, c: seq<RobotId>, a: Assignment) {
    Completion(m, c, a, {}) || (AllPause(a) && !Completable(m, c, {}))
  }

  lemma SettledWhenApart(m: ConflictModel, k: Kernel, decisions: Assignment)
    requires WellFormedModel(m) && Sound(k) && Faithful(m, k) && IsSettled(m, decisions)
    requires FootprintsApart(m, k)
    ensures AllApart(m, k, decisions)
  {
    hide WellFormedModel, Sound, Faithful, AllApart, Completable, FootprintsApart, PairsSafe, Restrict;
    FootprintsApartWhenCompletable(m, k);
    SafeIsApart(m, k, decisions);
    SafetyDecomposes(m, decisions);
    forall n | 0 <= n < |m.components|
      ensures ComponentSafe(m, m.components[n], Restrict(decisions, Elems(m.components[n])))
    {
      assert SettledPart(m, m.components[n], Restrict(decisions, Elems(m.components[n])));
      assert Completable(m, m.components[n], {});
    }
  }

  /** Moving robots occupy at least their footprints. */
  lemma FootprintsApartFromDecisions(m: ConflictModel, k: Kernel, decisions: Assignment)
    requires Sound(k) && decisions.Keys == m.snapshots.Keys && AllApart(m, k, decisions)
    ensures FootprintsApart(m, k)
  {
    hide Sound;
    forall i, j | i in m.snapshots && j in m.snapshots && i < j
      ensures !Clash(m, k, PauseAll(m.snapshots.Keys), i, j)
    {
      PauseWithinResume(k, m.snapshots[i], decisions[i]);
      PauseWithinResume(k, m.snapshots[j], decisions[j]);
      assert !Clash(m, k, decisions, i, j);
    }
  }

  lemma UnsafePairPausesPart(m: ConflictModel, p: Compatibility, c: seq<RobotId>, decisions: Assignment)
    requires p in m.pairs && p.robotI in c && p.robotJ in c && !PairSafe(p, decisions)
    requires SettledPart(m, c, Restrict(decisions, Elems(c))) && Elems(c) <= decisions.Keys
    ensures forall r | r in c :: decisions[r] == Pause
  {
    hide Completable, PairSafe;
    var a := Restrict(decisions, Elems(c));
    RestrictedPair(p, decisions, Elems(c));
    assert p in ComponentPairs(Elems(c), m.pairs);
    assert AllPause(a);
    assert forall r | r in c :: r in a;
  }

  /** If two decided envelopes still meet, both robots sit in one component that is paused throughout. */
  lemma ClashOnlyInPausedComponent(
    m: ConflictModel, k: Kernel, decisions: Assignment, i: RobotId, j: RobotId, n: nat
  )
    requires WellFormedModel(m) && Sound(k) && Faithful(m, k) && IsSettled(m, decisions)
    requires i < j && Clash(m, k, decisions, i, j)
    requires n < |m.components| && (i in m.components[n] || j in m.components[n])
    ensures i in m.components[n] && j in m.components[n]
    ensures forall r | r in m.components[n] :: r in decisions && decisions[r] == Pause
  {
    assert IdsMatch(m.snapshots);
    hide WellFormedModel, Sound, Faithful, SettledPart, Clash, PairSafe, Evaluate;
    ClashParticipants(m, k, decisions, i, j);
    ClashIsUnsafe(m, k, decisions, i, j);
    var p := Evaluate(k, m.snapshots[i], m.snapshots[j]);
    UnsafeIsConflict(p, decisions);
    ConflictStaysInside(m, p, n);
    ComponentWithinFleet(m, n);
    UnsafePairPausesPart(m, p, m.components[n], decisions);
  }

  lemma UnsafeIsConflict(p: Compatibility, a: Assignment)
    requires p.robotI in a && p.robotJ in a && !PairSafe(p, a)
    ensures !p.AllSafe()
  {
  }

  lemma ClashParticipants(m: ConflictModel, k: Kernel, a: Assignment, i: RobotId, j: RobotId)
    requires Clash(m, k, a, i, j)
    ensures i in m.snapshots && j in m.snapshots && i in a && j in a
  {
  }

  /** Singleton components have no pair to violate. */
  lemma SingletonIsSafe(m: ConflictModel, c: seq<RobotId>, a: Assignment)
    requires OrderedPairs(m.pairs, m.snapshots.Keys) && |c| == 1 && a.Keys == Elems(c)
    ensures ComponentSafe(m, c, a)
  {
    forall p | p in m.pairs
      ensures p.robotI !in c || p.robotJ !in c
    {
      assert p.robotI < p.robotJ;
    }
  }

  /** The policy for isolated robots. */
  predicate FollowsPolicy(m: ConflictModel, decisions: Assignment, r: RobotId) {
    r in m.snapshots && r in decisions && decisions[r] == if m.Unavailable(r) then Pause else Resume
  }

  lemma PolicySettles(m: ConflictModel, c: seq<RobotId>, decisions: Assignment)
    requires OrderedPairs(m.pairs, m.snapshots.Keys) && |c| == 1 && FollowsPolicy(m, decisions, c[0])
    ensures SettledPart(m, c, Restrict(decisions, Elems(c)))
  {
    var a := Restrict(decisions, Elems(c));
    assert a.Keys == Elems(c);
    SingletonIsSafe(m, c, a);
    assert Completion(m, c, a, {});
  }

  /** Stale and at-goal robots are never moved. */
  lemma UnavailableStayPaused(m: ConflictModel, decisions: Assignment, r: RobotId)
    requires Usable(m) && IsSettled(m, decisions) && m.Unavailable(r)
    ensures decisions[r] == Pause
  {
    hide OrderedPairs, IsComponent, PairsSafe, DisjointParts, Completable;
    assert InSome(m.components, r);
    var n :| 0 <= n < |m.components| && r in m.components[n];
    var a := Restrict(decisions, Elems(m.components[n]));
    assert SettledPart(m, m.components[n], a);
    assert r in a;
  }
}
