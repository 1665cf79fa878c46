/** From the pieces of one tick to its overall guarantees. */
module TickOutcome {
  import opened Basics
  import opened Components
  import opened Conflicts
  import opened Decomposition
  import opened GrantManagement
  import opened GrantRules
  import opened Models
  import opened Proposals
  import opened TickSafety

  // ---------------------------------------------------------------- the planned decision

  /** Planned actions for the whole fleet, before the independent safety review. */
  ghost predicate IsPlan(m: ConflictModel, hard: Assignment, planned: Assignment, unresolvable: bool) {
    && planned.Keys == m.snapshots.Keys
    && (forall r | r in m.isolated :: FollowsPolicy(m, planned, r))
    && (forall n | 0 <= n < |m.components| && IsConflictComponent(m, m.components[n]) ::
          PlannedPart(m, m.components[n], hard, planned))
    && (unresolvable <==> exists n | 0 <= n < |m.components| :: Unresolvable(m, m.components[n]))
  }

  ghost predicate PlannedPart(m: ConflictModel, c: seq<RobotId>, hard: Assignment, planned: Assignment) {
    DecidedPart(m, c, GroupOf(c, hard), Restrict(planned, Elems(c)))
  }

  /** A conflict component in which no safe assignment lets anybody move. */
  ghost predicate Unresolvable(m: ConflictModel, c: seq<RobotId>) {
    IsConflictComponent(m, c) && !ProgressPossible(m, c)
  }

  lemma PreviewedPlan(
    m: ConflictModel, hard: Assignment, proposed: Assignment, preview: Preview, n: nat
  )
    requires forall r | r in hard :: hard[r] == Resume
    requires IsProposal(m, hard, proposed) && IsPreview(m, hard, proposed, preview)
    requires n < |m.components| && IsConflictComponent(m, m.components[n])
    requires var group := GroupOf(m.components[n], hard);
             group == {} || Completable(m, m.components[n], group)
    ensures PlannedPart(m, m.components[n], hard, preview.decisions)
    ensures DeadPart(m, m.components[n], hard, proposed) <==> !ProgressPossible(m, m.components[n])
  {
    hide IsConflictComponent, ProposedPart, PreviewedComponent, Completable, DecidedPart, ProgressPossible, DeadComponent,
      Restrict;
    var c := m.components[n];
    assert PartPreviewed(m, c, hard, proposed, preview.decisions, true);
    assert ProposedComponent(m, n, hard, proposed);
    PreviewDecides(m, c, hard, Restrict(proposed, Elems(c)), Restrict(preview.decisions, Elems(c)));
  }

  /** An isolated robot keeps its policy action through the preview. */
  lemma PreviewKeepsPolicy(m: ConflictModel, hard: Assignment, proposed: Assignment, preview: Preview, r: RobotId)
    requires Usable(m) && IsolatedHaveNoConflict(m)
    requires IsProposal(m, hard, proposed) && IsPreview(m, hard, proposed, preview) && r in m.isolated
    ensures FollowsPolicy(m, preview.decisions, r)
  {
    hide ProposedComponent, PreviewedComponent, DeadPart, OrderedPairs, DisjointParts;
    assert InSome(m.components, r);
    var n :| 0 <= n < |m.components| && r in m.components[n];
    assert IsComponent(m, m.components[n]);
    assert PartPreviewed(m, m.components[n], hard, proposed, preview.decisions, true);
    assert r in Elems(m.components[n]);
    SameAt(proposed, preview.decisions, Elems(m.components[n]), r);
  }

  lemma SameAt(a: Assignment, b: Assignment, ids: set<RobotId>, r: RobotId)
    requires Restrict(a, ids) == Restrict(b, ids) && r in ids && r in a
    ensures r in b && b[r] == a[r]
  {
    assert r in Restrict(a, ids) && Restrict(a, ids)[r] == a[r];
    assert r in Restrict(b, ids) && Restrict(b, ids)[r] == b[r];
  }

  lemma PlanFromPreview(
    m: ConflictModel, before: GrantTable, hard: Assignment, kept: GrantTable, proposed: Assignment, preview: Preview
  )
    requires Usable(m) && IsolatedHaveNoConflict(m) && RetainedExactly(m, before, hard, kept)
    requires IsProposal(m, hard, proposed) && IsPreview(m, hard, proposed, preview)
    ensures IsPlan(m, hard, preview.decisions, preview.unresolvable)
  {
    HardIsResume(m, before, hard, kept);
    PreviewShape(m, hard, proposed, preview);
    hide Usable, IsolatedHaveNoConflict, RetainedExactly, IsProposal, IsPreview, FollowsPolicy, PlannedPart, DeadPart,
      ProgressPossible, Completable, IsConflictComponent;
    forall r | r in m.isolated
      ensures FollowsPolicy(m, preview.decisions, r)
    {
      PreviewKeepsPolicy(m, hard, proposed, preview, r);
    }
    forall n | 0 <= n < |m.components|
      ensures IsConflictComponent(m, m.components[n]) ==> PlannedPart(m, m.components[n], hard, preview.decisions)
      ensures DeadPart(m, m.components[n], hard, proposed) <==> Unresolvable(m, m.components[n])
    {
      DeadIsConflict(m, m.components[n], hard, proposed);
      if IsConflictComponent(m, m.components[n]) {
        UsableIsDisjoint(m);
        RetainedGroupCompletes(m, before, hard, kept, n);
        PreviewedPlan(m, hard, proposed, preview, n);
      }
    }
  }

  lemma HardIsResume(m: ConflictModel, before: GrantTable, hard: Assignment, kept: GrantTable)
    requires RetainedExactly(m, before, hard, kept)
    ensures forall r | r in hard :: hard[r] == Resume && r in before && m.HasConflict(r)
  {
  }

  lemma PreviewShape(m: ConflictModel, hard: Assignment, proposed: Assignment, preview: Preview)
    requires IsProposal(m, hard, proposed) && IsPreview(m, hard, proposed, preview)
    ensures preview.decisions.Keys == m.snapshots.Keys
    ensures preview.unresolvable <==> exists n | 0 <= n < |m.components| :: DeadPart(m, m.components[n], hard, proposed)
  {
    hide DeadPart, PartPreviewed, ProposedComponent, FollowsPolicy;
  }

  lemma DeadIsConflict(m: ConflictModel, c: seq<RobotId>, hard: Assignment, proposed: Assignment)
    ensures DeadPart(m, c, hard, proposed) ==> IsConflictComponent(m, c)
  {
  }

  lemma UsableIsDisjoint(m: ConflictModel)
    requires Usable(m)
    ensures DisjointParts(m.components)
  {
  }

  /** A plan settles every component. */
  lemma PlanSettles(m: ConflictModel, hard: Assignment, planned: Assignment, unresolvable: bool)
    requires Usable(m) && IsolatedHaveNoConflict(m) && IsPlan(m, hard, planned, unresolvable)
    ensures IsSettled(m, planned)
  {
    hide Usable, Completable, ProgressPossible, Unresolvable, FollowsPolicy, ComponentSafe, Restrict, OrderedPairs;
    forall n | 0 <= n < |m.components|
      ensures SettledPart(m, m.components[n], Restrict(planned, Elems(m.components[n])))
    {
      var c := m.components[n];
      ComponentAt(m, n);
      if IsConflictComponent(m, c) {
        assert PlannedPart(m, c, hard, planned);
      } else {
        assert c[0] in c && c[0] in m.isolated;
        PolicySettles(m, c, planned);
      }
    }
  }

  /** Retained grants are decided Resume, whatever the priorities and the solver's answer. */
  lemma RetainedAreResumed(
    m: ConflictModel, before: GrantTable, hard: Assignment, kept: GrantTable, planned: Assignment, unresolvable: bool,
    r: RobotId
  )
    requires Usable(m) && RetainedExactly(m, before, hard, kept) && IsPlan(m, hard, planned, unresolvable)
    requires r in hard
    ensures r in planned && planned[r] == Resume
  {
    hide Usable, RetainedExactly, IsPlan;
    var n := HardRobotPart(m, before, hard, kept, r);
    UsableIsDisjoint(m);
    RetainedGroupCompletes(m, before, hard, kept, n);
    PlannedGroupResumes(m, hard, planned, unresolvable, n, r);
  }

  /** The conflict component of a robot with a retained grant. */
  lemma HardRobotPart(m: ConflictModel, before: GrantTable, hard: Assignment, kept: GrantTable, r: RobotId)
    returns (n: nat)
    requires Usable(m) && RetainedExactly(m, before, hard, kept) && r in hard
    ensures n < |m.components| && r in m.components[n] && IsConflictComponent(m, m.components[n])
  {
    hide OrderedPairs, RetainedIn, DisjointParts, IsConflictComponent;
    assert m.HasConflict(r) && InSome(m.components[..|m.components|], r);
    assert m.components[..|m.components|] == m.components;
    n :| 0 <= n < |m.components| && r in m.components[n];
    assert IsComponent(m, m.components[n]);
  }

  lemma PlannedGroupResumes(
    m: ConflictModel, hard: Assignment, planned: Assignment, unresolvable: bool, n: nat, r: RobotId
  )
    requires IsPlan(m, hard, planned, unresolvable)
    requires n < |m.components| && IsConflictComponent(m, m.components[n]) && r in m.components[n] && r in hard
    requires Completable(m, m.components[n], GroupOf(m.components[n], hard)) || GroupOf(m.components[n], hard) == {}
    ensures r in planned && planned[r] == Resume
  {
    hide IsConflictComponent, Completable, ProgressPossible, Unresolvable, FollowsPolicy, ComponentSafe;
    var c := m.components[n];
    assert r in GroupOf(c, hard);
    SmallerGroup(m, c, {}, GroupOf(c, hard));
    assert PlannedPart(m, c, hard, planned);
    assert Completion(m, c, Restrict(planned, Elems(c)), GroupOf(c, hard));
  }

  // ---------------------------------------------------------------- grants and Resumes

  /** After commitment: every observed holder was commanded Resume, and every Resumed robot with a
      conflict holds a grant. */
  ghost predicate GrantsTrackResumes(m: ConflictModel, grants: GrantTable, decisions: Assignment) {
    && (forall r | r in grants && r in m.snapshots :: r in decisions && decisions[r] == Resume)
    && forall r | r in decisions && decisions[r] == Resume && m.HasConflict(r) :: r in grants
  }

  lemma HolderIsResumed(
    m: ConflictModel, before: GrantTable, hard: Assignment, kept: GrantTable, planned: Assignment, unresolvable: bool,
    r: RobotId
  )
    requires Usable(m) && IsolatedHaveNoConflict(m)
    requires RetainedExactly(m, before, hard, kept) && IsPlan(m, hard, planned, unresolvable)
    requires r in kept && r in m.snapshots && !m.snapshots[r].Unavailable()
    ensures r in planned && planned[r] == Resume
  {
    if m.HasConflict(r) {
      KeptConflictIsHard(m, before, hard, kept, r);
      RetainedAreResumed(m, before, hard, kept, planned, unresolvable, r);
    } else {
      hide Usable, RetainedExactly, PlannedPart, Unresolvable;
      assert r in m.isolated;
      assert FollowsPolicy(m, planned, r);
    }
  }

  lemma KeptConflictIsHard(m: ConflictModel, before: GrantTable, hard: Assignment, kept: GrantTable, r: RobotId)
    requires Usable(m) && RetainedExactly(m, before, hard, kept) && r in kept && r in m.snapshots && m.HasConflict(r)
    ensures r in hard
  {
    var n := FindComponent(m, r);
    hide Usable, RetainedIn;
    assert m.components[..|m.components|] == m.components;
    assert InSome(m.components, r);
  }

  /** The decided assignment itself witnesses that its Resumed robots can be completed together. */
  lemma DecisionIsWitness(m: ConflictModel, c: seq<RobotId>, a: Assignment, group: set<RobotId>, r: RobotId)
    requires SettledPart(m, c, a) && r in a && a[r] == Resume
    requires forall q | q in group :: q in a && a[q] == Resume
    ensures Completable(m, c, group + {r})
  {
    hide ComponentSafe;
    assert Completion(m, c, a, group + {r});
  }

  lemma AcquiredCandidates(
    m: ConflictModel, kept: GrantTable, planned: Assignment, acquired: set<RobotId>, r: RobotId, n: nat
  )
    requires AcquiredAmong(m, kept, planned, acquired, m.snapshots.Keys) && n < |m.components| && r in m.components[n]
    requires r in acquired
    ensures IsCandidate(m, kept, planned, r)
  {
    hide IsCandidate, Completable;
    var c := m.components[n];
    assert AcquiredIn(m, c, kept, planned, acquired, m.snapshots.Keys);
    assert r in acquired * Elems(c);
    assert r in AcquireCandidates(m, c, kept, planned);
  }

  /** The acquisition check can never refuse a Resumed robot. */
  lemma ResumedIsAcquired(
    m: ConflictModel, kept: GrantTable, planned: Assignment, acquired: set<RobotId>, r: RobotId
  )
    requires Usable(m) && IsSettled(m, planned) && planned.Keys == m.snapshots.Keys
    requires AcquiredAmong(m, kept, planned, acquired, m.snapshots.Keys)
    requires forall q | q in kept && q in m.snapshots :: planned[q] == Resume
    requires r in planned && planned[r] == Resume && m.HasConflict(r) && r !in kept
    ensures r in acquired
  {
    hide Usable, IsSettled, AcquiredAmong, Completable, SettledPart;
    ResumedIsAvailable(m, planned, r);
    var n := FindComponent(m, r);
    var c := m.components[n];
    AcquiredMembersResume(m, kept, planned, acquired, n);
    var a := Restrict(planned, Elems(c));
    SettledAt(m, planned, n);
    var group := HoldersIn(c, kept) + EarlierIn(acquired * Elems(c), IdKey(), r);
    DecisionIsWitness(m, c, a, group, r);
    GreedyMember(m, c, kept, planned, acquired, r, n);
  }

  lemma ResumedIsAvailable(m: ConflictModel, planned: Assignment, r: RobotId)
    requires Usable(m) && IsSettled(m, planned) && r in planned && planned[r] == Resume
    ensures !m.Unavailable(r)
  {
    hide Usable, SettledPart;
    if m.Unavailable(r) {
      UnavailableStayPaused(m, planned, r);
    }
  }

  lemma SettledAt(m: ConflictModel, planned: Assignment, n: nat)
    requires IsSettled(m, planned) && n < |m.components|
    ensures SettledPart(m, m.components[n], Restrict(planned, Elems(m.components[n])))
  {
  }

  lemma GreedyMember(
    m: ConflictModel, c: seq<RobotId>, kept: GrantTable, planned: Assignment, acquired: set<RobotId>, r: RobotId, n: nat
  )
    requires AcquiredAmong(m, kept, planned, acquired, m.snapshots.Keys) && n < |m.components| && c == m.components[n]
    requires r in c && r in m.snapshots && IsCandidate(m, kept, planned, r)
    requires Completable(m, c, HoldersIn(c, kept) + EarlierIn(acquired * Elems(c), IdKey(), r) + {r})
    ensures r in acquired
  {
    hide Completable, IsCandidate, HoldersIn, EarlierIn;
    assert AcquiredIn(m, c, kept, planned, acquired, m.snapshots.Keys);
    assert r in AcquireCandidates(m, c, kept, planned) * m.snapshots.Keys;
  }

  lemma AcquiredMembersResume(
    m: ConflictModel, kept: GrantTable, planned: Assignment, acquired: set<RobotId>, n: nat
  )
    requires Usable(m) && n < |m.components| && planned.Keys == m.snapshots.Keys
    requires AcquiredAmong(m, kept, planned, acquired, m.snapshots.Keys)
    requires forall q | q in kept && q in m.snapshots :: planned[q] == Resume
    ensures var c := m.components[n];
            forall q | q in c && (q in kept || q in acquired) :: q in planned && planned[q] == Resume
  {
    hide Usable, AcquiredAmong;
    var c := m.components[n];
    ComponentAt(m, n);
    forall q | q in c && (q in kept || q in acquired)
      ensures q in planned && planned[q] == Resume
    {
      if q in acquired {
        AcquiredCandidates(m, kept, planned, acquired, q, n);
      }
    }
  }

  lemma AcquiredKeys(
    m: ConflictModel, kept: GrantTable, hard: Assignment, planned: Assignment, unresolvable: bool, acquired: set<RobotId>
  )
    requires IsPlan(m, hard, planned, unresolvable) && AcquiredAmong(m, kept, planned, acquired, m.snapshots.Keys)
    ensures planned.Keys == m.snapshots.Keys && acquired <= m.snapshots.Keys
  {
  }

  lemma CommitTracksResumes(
    m: ConflictModel, before: GrantTable, hard: Assignment, kept: GrantTable, planned: Assignment, unresolvable: bool,
    acquired: set<RobotId>, tick: int
  )
    requires Usable(m) && IsolatedHaveNoConflict(m)
    requires RetainedExactly(m, before, hard, kept) && IsPlan(m, hard, planned, unresolvable)
    requires forall q | q in kept && q in m.snapshots :: !m.snapshots[q].Unavailable()
    requires AcquiredAmong(m, kept, planned, acquired, m.snapshots.Keys)
    ensures GrantsTrackResumes(m, kept + NewGrants(acquired, tick), planned)
  {
    hide Usable, IsolatedHaveNoConflict, RetainedExactly, IsPlan, AcquiredAmong, IsSettled;
    PlanSettles(m, hard, planned, unresolvable);
    AcquiredKeys(m, kept, hard, planned, unresolvable, acquired);
    forall q | q in kept && q in m.snapshots
      ensures planned[q] == Resume
    {
      HolderIsResumed(m, before, hard, kept, planned, unresolvable, q);
    }
    forall q | q in acquired
      ensures planned[q] == Resume
    {
      var n := FindComponent(m, q);
      AcquiredMembersResume(m, kept, planned, acquired, n);
    }
    forall q | q in planned && planned[q] == Resume && m.HasConflict(q) && q !in kept
      ensures q in acquired
    {
      ResumedIsAcquired(m, kept, planned, acquired, q);
    }
  }

  // ---------------------------------------------------------------- non-pre-emption

  /** A holder that must not be pre-empted: fresh, not at goal, within its lease, still in conflict,
      the oldest holder of its component, and safely completable. */
  ghost predicate HoldsRightOfWay(
    m: ConflictModel, c: seq<RobotId>, grants: GrantTable, tick: int, nowMs: int, cfg: Config, r: RobotId
  ) {
    && r in c && r in grants && r in m.snapshots && m.HasConflict(r)
    && !m.snapshots[r].Unavailable()
    && nowMs - m.snapshots[r].receivedAtMs < cfg.StaleLimitMs()
    && tick - grants[r].acquisitionTick < cfg.maximumHoldTicks
    && (forall q | q in c && q in grants && q != r :: Before(AgeKey(grants), r, q))
    && Completable(m, c, {r})
  }

  lemma RightOfWaySurvives(
    m: ConflictModel, c: seq<RobotId>, grants: GrantTable, tick: int, nowMs: int, cfg: Config, r: RobotId
  )
    requires cfg.Valid() && (forall q | q in grants :: grants[q].robotId == q)
    requires HoldsRightOfWay(m, c, grants, tick, nowMs, cfg, r)
    ensures var reconciled := ReconcileAll(grants, tick, m, nowMs, cfg);
            IsFirst(AgeKey(reconciled), ConflictingHolders(m, c, reconciled), r)
  {
    hide Completable;
    var reconciled := ReconcileAll(grants, tick, m, nowMs, cfg);
    assert Reconcile(grants[r], tick, m, nowMs, cfg).Retain?;
    forall q | q in ConflictingHolders(m, c, reconciled) && q != r
      ensures Before(AgeKey(reconciled), r, q)
    {
      assert q in grants && reconciled[q].acquisitionTick == grants[q].acquisitionTick;
      assert Before(AgeKey(grants), r, q);
    }
  }

  /** Such a holder is decided Resume this tick, for every choice of priorities and every validated
      solver answer. */
  lemma OldestHolderIsNotPreempted(
    m: ConflictModel, grants: GrantTable, tick: int, nowMs: int, cfg: Config, hard: Assignment, kept: GrantTable,
    planned: Assignment, unresolvable: bool, r: RobotId, n: nat
  )
    requires cfg.Valid() && (forall q | q in grants :: grants[q].robotId == q) && Usable(m) && n < |m.components|
    requires RetainedExactly(m, ReconcileAll(grants, tick, m, nowMs, cfg), hard, kept)
    requires IsPlan(m, hard, planned, unresolvable)
    requires HoldsRightOfWay(m, m.components[n], grants, tick, nowMs, cfg, r)
    ensures r in planned && planned[r] == Resume
  {
    var c := m.components[n];
    var reconciled := ReconcileAll(grants, tick, m, nowMs, cfg);
    RightOfWaySurvives(m, c, grants, tick, nowMs, cfg, r);
    RetainedAt(m, reconciled, hard, kept, n);
    hide Usable, RetainedExactly, IsPlan, ReconcileAll, AgeKey;
    var holders := ConflictingHolders(m, c, reconciled);
    FirstCandidateIsChosen(m, c, holders, holders * hard.Keys, AgeKey(reconciled), r);
    RetainedAreResumed(m, reconciled, hard, kept, planned, unresolvable, r);
  }

  lemma RetainedAt(m: ConflictModel, before: GrantTable, hard: Assignment, kept: GrantTable, n: nat)
    requires RetainedExactly(m, before, hard, kept) && n < |m.components|
    ensures RetainedIn(m, m.components[n], before, hard)
  {
  }
}
