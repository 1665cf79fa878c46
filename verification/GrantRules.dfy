/** Right-of-way grants: lifecycle of one record, exact retention and the lease bound. */
module GrantRules {
  import opened Basics
  import opened Components
  import opened Conflicts
  import opened Decomposition
  import opened Models
  import opened Objective
  import opened Optimiser
  import opened Priority

  datatype GrantRecord = GrantRecord(
    robotId: RobotId,
    acquisitionTick: int,
    lastSeenTick: int,
    clearanceCounter: int
  )

  type GrantTable = map<RobotId, GrantRecord>

  datatype ReleaseReason = AtGoal | StaleOrDisappeared | ConflictCleared | MaximumLeaseFaultGuard

  datatype Lifecycle = Retain(record: GrantRecord) | Release(reason: ReleaseReason)

  // ---------------------------------------------------------------- lifecycle of one record

  /** What one tick does to one grant before any conflict resolution. */
  function Reconcile(g: GrantRecord, tick: int, m: ConflictModel, nowMs: int, cfg: Config): Lifecycle
    requires cfg.Valid()
  {
    var r := g.robotId;
    if r !in m.snapshots then
      if tick - g.lastSeenTick >= cfg.StaleTickLimit() then Release(StaleOrDisappeared) else Retain(g)
    else
      var s := m.snapshots[r];
      if s.stale || nowMs - s.receivedAtMs >= cfg.StaleLimitMs() then
        Release(StaleOrDisappeared)
      else if s.atGoal then
        Release(AtGoal)
      else
        var age := tick - g.acquisitionTick;
        if age >= cfg.maximumHoldTicks then
          Release(MaximumLeaseFaultGuard)
        else
          var relevant := m.HasConflict(r);
          var counter := if relevant then 0 else g.clearanceCounter + 1;
          if !relevant && counter >= cfg.clearanceReleaseTicks && age >= cfg.minimumHoldTicks then
            Release(ConflictCleared)
          else
            Retain(g.(lastSeenTick := tick, clearanceCounter := counter))
  }

  function ReconcileAll(grants: GrantTable, tick: int, m: ConflictModel, nowMs: int, cfg: Config): GrantTable
    requires cfg.Valid()
  {
    map r | r in grants && Reconcile(grants[r], tick, m, nowMs, cfg).Retain? ::
      Reconcile(grants[r], tick, m, nowMs, cfg).record
  }

  // ---------------------------------------------------------------- bounded leases

  function LeaseBound(cfg: Config): int {
    Max(cfg.maximumHoldTicks - 1, 0)
  }

  /** A record after some tick: seen within the lease, and lost for less than the stale limit. */
  predicate LeaseOk(g: GrantRecord, r: RobotId, tick: int, cfg: Config)
    requires cfg.Valid()
  {
    && g.robotId == r
    && 1 <= g.acquisitionTick <= g.lastSeenTick <= tick
    && g.clearanceCounter >= 0
    && g.lastSeenTick - g.acquisitionTick <= LeaseBound(cfg)
    && tick - g.lastSeenTick <= cfg.StaleTickLimit() - 1
  }

  predicate LeasesOk(grants: GrantTable, tick: int, cfg: Config)
    requires cfg.Valid()
  {
    forall r | r in grants :: LeaseOk(grants[r], r, tick, cfg)
  }

  /** One more tick keeps every lease bounded, whichever robots vanish or reappear, and the record of
      every observed holder carries the new tick. */
  lemma ReconcileKeepsLeases(grants: GrantTable, tick: int, m: ConflictModel, nowMs: int, cfg: Config)
    requires cfg.Valid() && tick >= 0 && LeasesOk(grants, tick, cfg)
    ensures var after := ReconcileAll(grants, tick + 1, m, nowMs, cfg);
            && LeasesOk(after, tick + 1, cfg)
            && forall r | r in after && r in m.snapshots ::
                 after[r].lastSeenTick == tick + 1 && after[r].acquisitionTick == grants[r].acquisitionTick
                 && !m.snapshots[r].Unavailable()
  {
    forall r | r in grants && Reconcile(grants[r], tick + 1, m, nowMs, cfg).Retain?
      ensures LeaseOk(Reconcile(grants[r], tick + 1, m, nowMs, cfg).record, r, tick + 1, cfg)
    {
    }
  }

  /** The age bound: the lease itself, plus the ticks a vanished robot may be remembered. */
  lemma LeaseAgeBound(grants: GrantTable, tick: int, cfg: Config, r: RobotId)
    requires cfg.Valid() && LeasesOk(grants, tick, cfg) && r in grants
    ensures tick - grants[r].acquisitionTick <= LeaseBound(cfg) + (cfg.StaleTickLimit() - 1)
    ensures grants[r].lastSeenTick == tick ==> tick - grants[r].acquisitionTick <= LeaseBound(cfg)
  {
  }

  // ---------------------------------------------------------------- completions

  /** The part of model well-formedness that grant handling relies on. */
  ghost predicate Usable(m: ConflictModel) {
    && OrderedPairs(m.pairs, m.snapshots.Keys)
    && m.adjacency.Keys == m.snapshots.Keys
    && DisjointParts(m.components)
    && (forall k | 0 <= k < |m.components| :: IsComponent(m, m.components[k]))
    && forall r | r in m.snapshots :: InSome(m.components, r)
  }

  ghost predicate IsComponent(m: ConflictModel, c: seq<RobotId>) {
    && c != [] && StrictlyAscending(c)
    && (forall r | r in c :: r in m.snapshots && (m.HasConflict(r) <==> IsConflictComponent(m, c)))
    && (|c| >= 2 <==> IsConflictComponent(m, c))
  }

  /** The component of an observed robot. */
  lemma FindComponent(m: ConflictModel, r: RobotId) returns (n: nat)
    requires Usable(m) && r in m.snapshots
    ensures n < |m.components| && r in m.components[n] && IsComponent(m, m.components[n])
    ensures m.HasConflict(r) <==> IsConflictComponent(m, m.components[n])
  {
    hide OrderedPairs, DisjointParts, IsConflictComponent;
    assert InSome(m.components, r);
    n :| 0 <= n < |m.components| && r in m.components[n];
    assert IsComponent(m, m.components[n]);
  }

  lemma ComponentAt(m: ConflictModel, n: nat)
    requires Usable(m) && n < |m.components|
    ensures IsComponent(m, m.components[n]) && DisjointParts(m.components)
    ensures OrderedPairs(m.pairs, m.snapshots.Keys)
    ensures forall r | r in m.components[n] :: r in m.snapshots
  {
    hide OrderedPairs, DisjointParts, IsConflictComponent;
    assert IsComponent(m, m.components[n]);
  }

  lemma WellFormedIsUsable(m: ConflictModel)
    requires WellFormedModel(m)
    ensures Usable(m)
  {
    forall k | 0 <= k < |m.components|
      ensures IsComponent(m, m.components[k])
    {
      var c := m.components[k];
      forall r | r in c
        ensures r in m.snapshots && (m.HasConflict(r) <==> IsConflictComponent(m, c))
        ensures |c| >= 2 <==> IsConflictComponent(m, c)
      {
        MemberIsObserved(m, k, r);
        ConflictExactlyInLargeComponents(m, k, r);
      }
      assert c[0] in c;
    }
  }

  /** A complete safe action assignment of a component that Pauses its stale and at-goal robots and
      Resumes a given group. */
  predicate Completion(m: ConflictModel, c: seq<RobotId>, a: Assignment, group: set<RobotId>) {
    && ComponentSafe(m, c, a)
    && (forall r | r in c && m.Unavailable(r) :: a[r] == Pause)
    && forall r | r in group :: r in a && a[r] == Resume
  }

  ghost predicate Completable(m: ConflictModel, c: seq<RobotId>, group: set<RobotId>) {
    exists a :: Completion(m, c, a, group)
  }

  /** Some safe assignment of the component moves a robot while stale and at-goal robots stay put. */
  ghost predicate ProgressPossible(m: ConflictModel, c: seq<RobotId>) {
    exists a :: Completion(m, c, a, {}) && HasResume(a)
  }

  function UnavailableIn(m: ConflictModel, c: seq<RobotId>): set<RobotId> {
    set r | r in c && m.Unavailable(r)
  }

  /** Pauses of unavailable robots, overridden by Resumes of the group. */
  function GroupHard(m: ConflictModel, c: seq<RobotId>, group: set<RobotId>): Assignment {
    PauseAll(UnavailableIn(m, c)) + map r | r in group :: Resume
  }

  /** The heuristic's hard seed asks for exactly the completions that Resume the group. */
  lemma GroupHardMeansCompletion(m: ConflictModel, c: seq<RobotId>, a: Assignment, group: set<RobotId>)
    requires group <= Elems(c) && group !! UnavailableIn(m, c)
    ensures SafeCompletion(a, Elems(c), ComponentPairs(Elems(c), m.pairs), GroupHard(m, c, group))
            <==> Completion(m, c, a, group)
  {
    var hard := GroupHard(m, c, group);
    assert forall r | r in c && m.Unavailable(r) :: r in hard && hard[r] == Pause;
    assert forall r | r in group :: r in hard && hard[r] == Resume;
  }

  lemma GroupAvoidsUnavailable(m: ConflictModel, c: seq<RobotId>, group: set<RobotId>)
    requires group <= Elems(c)
    ensures Completable(m, c, group) ==> group !! UnavailableIn(m, c)
  {
    forall a, r | r in group && r in UnavailableIn(m, c)
      ensures !Completion(m, c, a, group)
    {
    }
  }

  /** Completing a group completes every smaller group. */
  lemma SmallerGroup(m: ConflictModel, c: seq<RobotId>, small: set<RobotId>, large: set<RobotId>)
    requires small <= large && Completable(m, c, large)
    ensures Completable(m, c, small)
  {
    var a :| Completion(m, c, a, large);
    assert Completion(m, c, a, small);
  }

  // ---------------------------------------------------------------- greedy completable groups

  /** The members of `chosen` that precede `r`. */
  function EarlierIn(chosen: set<RobotId>, key: SortKey, r: RobotId): set<RobotId> {
    set q | q in chosen && Before(key, q, r)
  }

  /** `chosen` is the greedy completable set of `candidates` in the order of `key`: a candidate is in
      it exactly when it can be completed together with `start` and the earlier chosen ones. */
  ghost predicate IsGreedyGroup(
    m: ConflictModel, c: seq<RobotId>, start: set<RobotId>, candidates: set<RobotId>,
    chosen: set<RobotId>, key: SortKey
  ) {
    && chosen <= candidates
    && forall r | r in candidates ::
         r in chosen <==> Completable(m, c, start + EarlierIn(chosen, key, r) + {r})
  }

  /** Oldest grant first. */
  function AgeKey(grants: GrantTable): SortKey {
    r => (if r in grants then grants[r].acquisitionTick else 0, 0)
  }

  function IdKey(): SortKey {
    r => (0, 0)
  }

  /** The holders of a component that take part in a conflict. */
  function ConflictingHolders(m: ConflictModel, c: seq<RobotId>, grants: GrantTable): set<RobotId> {
    set r | r in c && r in grants && m.HasConflict(r)
  }

  /** Retention after the first `n` components: in each of them the retained holders are the greedy
      completable set of its holders, oldest first; every other grant is untouched. */
  ghost predicate RetainedUpTo(m: ConflictModel, before: GrantTable, hard: Assignment, after: GrantTable, n: nat) {
    && n <= |m.components|
    && (forall r | r in hard ::
          hard[r] == Resume && r in before && m.HasConflict(r) && InSome(m.components[..n], r))
    && (forall k | 0 <= k < n :: RetainedIn(m, m.components[k], before, hard))
    && after == map r | r in before && (m.HasConflict(r) && InSome(m.components[..n], r) ==> r in hard) :: before[r]
  }

  ghost predicate RetainedIn(m: ConflictModel, c: seq<RobotId>, before: GrantTable, hard: Assignment) {
    var holders := ConflictingHolders(m, c, before);
    IsGreedyGroup(m, c, {}, holders, holders * hard.Keys, AgeKey(before))
  }

  ghost predicate RetainedExactly(m: ConflictModel, before: GrantTable, hard: Assignment, after: GrantTable) {
    RetainedUpTo(m, before, hard, after, |m.components|)
  }

  function ResumeAll(ids: set<RobotId>): Assignment {
    map r | r in ids :: Resume
  }

  /** The robots of part `n` are new, and extend the robots of the first `n` parts. */
  lemma NextPart(parts: seq<seq<RobotId>>, n: nat)
    requires DisjointParts(parts) && n < |parts|
    ensures forall r | r in parts[n] :: !InSome(parts[..n], r)
    ensures forall r :: InSome(parts[..n + 1], r) <==> InSome(parts[..n], r) || r in parts[n]
  {
    NotInEarlierPart(parts, n);
    forall r
      ensures InSome(parts[..n + 1], r) <==> InSome(parts[..n], r) || r in parts[n]
    {
      InOneMorePart(parts, n, r);
    }
  }

  lemma RetainNext(
    m: ConflictModel, before: GrantTable, hard: Assignment, current: GrantTable, n: nat, retained: set<RobotId>
  )
    requires DisjointParts(m.components) && RetainedUpTo(m, before, hard, current, n) && n < |m.components|
    requires var c := m.components[n];
             IsGreedyGroup(m, c, {}, ConflictingHolders(m, c, current), retained, AgeKey(before))
    ensures var c := m.components[n];
            var next := current - (ConflictingHolders(m, c, current) - retained);
            RetainedUpTo(m, before, hard + ResumeAll(retained), next, n + 1)
  {
    hide RetainedIn, InSome, ConflictingHolders, IsGreedyGroup, DisjointParts;
    var hard' := hard + ResumeAll(retained);
    NextPart(m.components, n);
    SameHolders(m, before, hard, current, n);
    RetainedAreHolders(m, m.components[n], before, retained);
    NewPartRetained(m, before, hard, n, retained);
    forall k | 0 <= k < n
      ensures RetainedIn(m, m.components[k], before, hard')
    {
      EarlierPartRetained(m, before, hard, n, retained, k);
    }
    TableNext(m, before, hard, current, n, retained);
  }

  lemma RetainedAreHolders(m: ConflictModel, c: seq<RobotId>, before: GrantTable, retained: set<RobotId>)
    requires IsGreedyGroup(m, c, {}, ConflictingHolders(m, c, before), retained, AgeKey(before))
    ensures retained <= ConflictingHolders(m, c, before) && forall r | r in retained :: r in c
  {
  }

  lemma NewPartRetained(m: ConflictModel, before: GrantTable, hard: Assignment, n: nat, retained: set<RobotId>)
    requires n < |m.components|
    requires forall r | r in m.components[n] :: r !in hard
    requires var c := m.components[n];
             IsGreedyGroup(m, c, {}, ConflictingHolders(m, c, before), retained, AgeKey(before))
    ensures RetainedIn(m, m.components[n], before, hard + ResumeAll(retained))
  {
    var holders := ConflictingHolders(m, m.components[n], before);
    assert holders * (hard + ResumeAll(retained)).Keys == retained;
  }

  lemma EarlierPartRetained(
    m: ConflictModel, before: GrantTable, hard: Assignment, n: nat, retained: set<RobotId>, k: nat
  )
    requires k < n < |m.components| && RetainedIn(m, m.components[k], before, hard)
    requires forall r | r in m.components[n] :: !InSome(m.components[..n], r)
    requires forall r | r in retained :: r in m.components[n]
    ensures RetainedIn(m, m.components[k], before, hard + ResumeAll(retained))
  {
    hide RetainedIn, InSome;
    HoldersOfEarlierPart(m, n, k, before);
    KeepRetained(m, m.components[k], before, hard, hard + ResumeAll(retained));
  }

  lemma SameHolders(m: ConflictModel, before: GrantTable, hard: Assignment, current: GrantTable, n: nat)
    requires RetainedUpTo(m, before, hard, current, n) && n < |m.components|
    requires forall r | r in m.components[n] :: !InSome(m.components[..n], r)
    ensures ConflictingHolders(m, m.components[n], current) == ConflictingHolders(m, m.components[n], before)
  {
    hide RetainedIn, InSome;
  }

  lemma KeepRetained(m: ConflictModel, c: seq<RobotId>, before: GrantTable, hard: Assignment, hard': Assignment)
    requires RetainedIn(m, c, before, hard)
    requires forall r | r in ConflictingHolders(m, c, before) :: r in hard <==> r in hard'
    ensures RetainedIn(m, c, before, hard')
  {
    var holders := ConflictingHolders(m, c, before);
    assert holders * hard.Keys == holders * hard'.Keys;
  }

  lemma TableNext(
    m: ConflictModel, before: GrantTable, hard: Assignment, current: GrantTable, n: nat, retained: set<RobotId>
  )
    requires RetainedUpTo(m, before, hard, current, n) && n < |m.components|
    requires var c := m.components[n];
             && (forall r | r in c :: !InSome(m.components[..n], r))
             && (forall r :: InSome(m.components[..n + 1], r) <==> InSome(m.components[..n], r) || r in c)
             && retained <= ConflictingHolders(m, c, current)
    ensures var hard' := hard + ResumeAll(retained);
            && current - (ConflictingHolders(m, m.components[n], current) - retained)
               == (map r | r in before && (m.HasConflict(r) && InSome(m.components[..n + 1], r) ==> r in hard') :: before[r])
            && forall r | r in hard' ::
                 hard'[r] == Resume && r in before && m.HasConflict(r) && InSome(m.components[..n + 1], r)
  {
    hide RetainedIn, InSome;
  }

  lemma HoldersOfEarlierPart(m: ConflictModel, n: nat, k: nat, before: GrantTable)
    requires k < n <= |m.components|
    ensures forall r | r in ConflictingHolders(m, m.components[k], before) :: InSome(m.components[..n], r)
  {
    forall r | r in m.components[k]
      ensures InSome(m.components[..n], r)
    {
      assert r in m.components[..n][k];
    }
  }

  lemma NotInEarlierPart(parts: seq<seq<RobotId>>, n: nat)
    requires DisjointParts(parts) && n < |parts|
    ensures forall r | r in parts[n] :: !InSome(parts[..n], r)
  {
    forall r | r in parts[n]
      ensures !InSome(parts[..n], r)
    {
      assert forall k | 0 <= k < n :: parts[..n][k] == parts[k];
    }
  }

  lemma InOneMorePart(parts: seq<seq<RobotId>>, n: nat, r: RobotId)
    requires n < |parts|
    ensures InSome(parts[..n + 1], r) <==> InSome(parts[..n], r) || r in parts[n]
  {
    assert parts[..n + 1] == parts[..n] + [parts[n]];
    if InSome(parts[..n], r) {
      var k :| 0 <= k < n && r in parts[..n][k];
      assert r in parts[..n + 1][k];
    }
    if r in parts[n] {
      assert r in parts[..n + 1][n];
    }
  }

  /** All members of a greedy group can be completed together. */
  lemma GreedyGroupCompletes(
    m: ConflictModel, c: seq<RobotId>, start: set<RobotId>, candidates: set<RobotId>, chosen: set<RobotId>, key: SortKey
  )
    requires IsGreedyGroup(m, c, start, candidates, chosen, key) && chosen != {}
    ensures Completable(m, c, start + chosen)
  {
    var last := LastInOrder(chosen, key);
    BeforeIsAsymmetric(key, last, last);
    assert EarlierIn(chosen, key, last) + {last} == chosen;
    assert start + EarlierIn(chosen, key, last) + {last} == start + chosen;
  }

  /** The greedy group is fully determined by the candidates and their order. */
  lemma GreedyGroupIsUnique(
    m: ConflictModel, c: seq<RobotId>, start: set<RobotId>, candidates: set<RobotId>,
    x: set<RobotId>, y: set<RobotId>, key: SortKey
  )
    requires IsGreedyGroup(m, c, start, candidates, x, key)
    requires IsGreedyGroup(m, c, start, candidates, y, key)
    ensures x == y
  {
    var differ := (x - y) + (y - x);
    if differ != {} {
      var r := First(differ, key);
      forall q | q in differ
        ensures !Before(key, q, r)
      {
        BeforeIsAsymmetric(key, r, q);
      }
      SameEarlier(x, y, key, r);
    }
  }

  lemma SameEarlier(x: set<RobotId>, y: set<RobotId>, key: SortKey, r: RobotId)
    requires forall q | q in (x - y) + (y - x) :: !Before(key, q, r)
    ensures EarlierIn(x, key, r) == EarlierIn(y, key, r)
  {
    forall q | Before(key, q, r)
      ensures q in x <==> q in y
    {
      assert q !in (x - y) + (y - x);
    }
  }

  /** The first candidate is chosen whenever it can be completed at all. */
  lemma FirstCandidateIsChosen(
    m: ConflictModel, c: seq<RobotId>, candidates: set<RobotId>, chosen: set<RobotId>, key: SortKey, r: RobotId
  )
    requires IsGreedyGroup(m, c, {}, candidates, chosen, key)
    requires IsFirst(key, candidates, r) && Completable(m, c, {r})
    ensures r in chosen
  {
    assert EarlierIn(chosen, key, r) == {};
    assert {} + EarlierIn(chosen, key, r) + {r} == {r};
  }

  /** The greedy group built from the first `n` candidates in order. */
  ghost predicate GreedyPrefix(
    m: ConflictModel, c: seq<RobotId>, start: set<RobotId>, ordered: seq<RobotId>, n: nat,
    chosen: set<RobotId>, key: SortKey
  ) {
    && n <= |ordered|
    && (forall q | q in chosen :: q in ordered[..n])
    && forall i | 0 <= i < n ::
         ordered[i] in chosen <==> Completable(m, c, start + EarlierIn(chosen, key, ordered[i]) + {ordered[i]})
  }

  lemma GreedyStart(m: ConflictModel, c: seq<RobotId>, start: set<RobotId>, ordered: seq<RobotId>, key: SortKey)
    ensures GreedyPrefix(m, c, start, ordered, 0, {}, key)
  {
  }

  lemma GreedyStep(
    m: ConflictModel, c: seq<RobotId>, start: set<RobotId>, ordered: seq<RobotId>, n: nat,
    chosen: set<RobotId>, key: SortKey, accept: bool
  )
    requires SortedBy(key, ordered) && n < |ordered|
    requires GreedyPrefix(m, c, start, ordered, n, chosen, key)
    requires accept <==> Completable(m, c, start + chosen + {ordered[n]})
    ensures ordered[n] !in chosen
    ensures GreedyPrefix(m, c, start, ordered, n + 1, if accept then chosen + {ordered[n]} else chosen, key)
  {
    var r := ordered[n];
    forall q | q in chosen
      ensures Before(key, q, r) && q != r
    {
      var i :| 0 <= i < n && ordered[i] == q;
      assert Before(key, ordered[i], ordered[n]);
    }
    var next := if accept then chosen + {r} else chosen;
    forall i | 0 <= i < n
      ensures EarlierIn(next, key, ordered[i]) == EarlierIn(chosen, key, ordered[i]) && ordered[i] != r
    {
      assert Before(key, ordered[i], ordered[n]);
    }
    assert EarlierIn(next, key, r) == chosen;
  }

  lemma GreedyDone(
    m: ConflictModel, c: seq<RobotId>, start: set<RobotId>, ordered: seq<RobotId>, chosen: set<RobotId>, key: SortKey
  )
    requires GreedyPrefix(m, c, start, ordered, |ordered|, chosen, key)
    ensures IsGreedyGroup(m, c, start, Elems(ordered), chosen, key)
  {
    assert ordered[..|ordered|] == ordered;
    forall r | r in ordered
      ensures r in chosen <==> Completable(m, c, start + EarlierIn(chosen, key, r) + {r})
    {
      var i :| 0 <= i < |ordered| && ordered[i] == r;
    }
  }

  // ---------------------------------------------------------------- acquisition

  function HoldersIn(c: seq<RobotId>, grants: GrantTable): set<RobotId> {
    set r | r in c && r in grants
  }

  /** Resumed, available robots with a conflict that do not hold a grant yet. */
  function AcquireCandidates(m: ConflictModel, c: seq<RobotId>, before: GrantTable, decisions: Assignment): set<RobotId> {
    set r | r in c && IsCandidate(m, before, decisions, r)
  }

  predicate IsCandidate(m: ConflictModel, before: GrantTable, decisions: Assignment, r: RobotId) {
    r in decisions && decisions[r] == Resume && r !in before && !m.Unavailable(r) && m.HasConflict(r)
  }

  /** Acquisition after the robots of `done`, in ascending order: in every component the new holders
      are the greedy set that can be completed together with the existing ones. */
  ghost predicate AcquiredAmong(
    m: ConflictModel, before: GrantTable, decisions: Assignment, acquired: set<RobotId>, done: set<RobotId>
  ) {
    && acquired <= done
    && forall k | 0 <= k < |m.components| :: AcquiredIn(m, m.components[k], before, decisions, acquired, done)
  }

  ghost predicate AcquiredIn(
    m: ConflictModel, c: seq<RobotId>, before: GrantTable, decisions: Assignment, acquired: set<RobotId>, done: set<RobotId>
  ) {
    IsGreedyGroup(
      m, c, HoldersIn(c, before), AcquireCandidates(m, c, before, decisions) * done, acquired * Elems(c), IdKey()
    )
  }

  function NewGrants(acquired: set<RobotId>, tick: int): GrantTable {
    map r | r in acquired :: GrantRecord(r, tick, tick, 0)
  }

  /** Appending a last candidate to a greedy group. */
  lemma GreedyAppend(
    m: ConflictModel, c: seq<RobotId>, start: set<RobotId>, candidates: set<RobotId>, chosen: set<RobotId>,
    key: SortKey, r: RobotId, accept: bool
  )
    requires IsGreedyGroup(m, c, start, candidates, chosen, key)
    requires forall q | q in candidates :: Before(key, q, r)
    requires accept <==> Completable(m, c, start + chosen + {r})
    ensures IsGreedyGroup(m, c, start, candidates + {r}, if accept then chosen + {r} else chosen, key)
  {
    hide Completable;
    var next := if accept then chosen + {r} else chosen;
    BeforeIsAsymmetric(key, r, r);
    assert EarlierIn(next, key, r) == chosen;
    forall q | q in candidates
      ensures EarlierIn(next, key, q) == EarlierIn(chosen, key, q) && q != r
    {
      BeforeIsAsymmetric(key, q, r);
    }
  }

  lemma AcquireOther(
    m: ConflictModel, c: seq<RobotId>, before: GrantTable, decisions: Assignment, acquired: set<RobotId>,
    done: set<RobotId>, r: RobotId, acquired': set<RobotId>
  )
    requires AcquiredIn(m, c, before, decisions, acquired, done)
    requires r !in AcquireCandidates(m, c, before, decisions)
    requires acquired' * Elems(c) == acquired * Elems(c)
    ensures AcquiredIn(m, c, before, decisions, acquired', done + {r})
  {
    hide IsGreedyGroup;
    var candidates := AcquireCandidates(m, c, before, decisions);
    assert candidates * (done + {r}) == candidates * done;
  }

  lemma AcquireOwn(
    m: ConflictModel, c: seq<RobotId>, before: GrantTable, decisions: Assignment, acquired: set<RobotId>,
    done: set<RobotId>, r: RobotId, accept: bool
  )
    requires AcquiredIn(m, c, before, decisions, acquired, done)
    requires r in AcquireCandidates(m, c, before, decisions) && acquired <= done && forall q | q in done :: q < r
    requires accept <==> Completable(m, c, HoldersIn(c, before) + acquired * Elems(c) + {r})
    ensures AcquiredIn(m, c, before, decisions, if accept then acquired + {r} else acquired, done + {r})
  {
    hide IsGreedyGroup, Completable;
    var candidates := AcquireCandidates(m, c, before, decisions);
    GreedyAppend(m, c, HoldersIn(c, before), candidates * done, acquired * Elems(c), IdKey(), r, accept);
    assert candidates * (done + {r}) == candidates * done + {r};
    assert (acquired + {r}) * Elems(c) == acquired * Elems(c) + {r};
  }

  /** One more robot has been considered for acquisition. */
  lemma AcquireNext(
    m: ConflictModel, before: GrantTable, decisions: Assignment, acquired: set<RobotId>, done: set<RobotId>,
    r: RobotId, k: nat, accept: bool
  )
    requires DisjointParts(m.components) && k < |m.components| && r in m.components[k]
    requires AcquiredAmong(m, before, decisions, acquired, done) && forall q | q in done :: q < r
    requires accept ==> IsCandidate(m, before, decisions, r)
    requires IsCandidate(m, before, decisions, r) ==>
      var c := m.components[k];
      accept <==> Completable(m, c, HoldersIn(c, before) + acquired * Elems(c) + {r})
    ensures AcquiredAmong(m, before, decisions, if accept then acquired + {r} else acquired, done + {r})
  {
    hide Completable, IsCandidate, DisjointParts, HoldersIn;
    var acquired' := if accept then acquired + {r} else acquired;
    forall j | 0 <= j < |m.components|
      ensures AcquiredIn(m, m.components[j], before, decisions, acquired', done + {r})
    {
      hide AcquiredIn;
      var c := m.components[j];
      assert AcquiredIn(m, c, before, decisions, acquired, done);
      if j == k && IsCandidate(m, before, decisions, r) {
        AcquireOwn(m, c, before, decisions, acquired, done, r, accept);
      } else {
        if j != k {
          NotInOtherPart(m.components, k, j, r);
        }
        assert acquired' * Elems(c) == acquired * Elems(c);
        AcquireOther(m, c, before, decisions, acquired, done, r, acquired');
      }
    }
  }

  lemma NotInOtherPart(parts: seq<seq<RobotId>>, k: nat, j: nat, r: RobotId)
    requires DisjointParts(parts) && k < |parts| && j < |parts| && j != k && r in parts[k]
    ensures r !in parts[j]
  {
  }

  // ---------------------------------------------------------------- neutral priorities

  /** The constant priorities used for feasibility checks. */
  function Neutral(c: seq<RobotId>): Priorities {
    map r | r in c :: PriorityBreakdown(r, 0, 0, 0, 0, 0, 0, 0, 0, 0, 0, 1, 1)
  }

  /** The feasibility check of this component would exceed the solver's integer range. */
  predicate NeutralOverflow(c: seq<RobotId>) {
    OverflowsOn(Elems(c), Neutral(c))
  }

  // ---------------------------------------------------------------- previewed decisions

  /** Hard actions of the no-all-paused repair: unavailable robots Pause, retained grants Resume. */
  function RepairHard(m: ConflictModel, c: seq<RobotId>, hard: Assignment): Assignment {
    PauseAll(UnavailableIn(m, c)) + Restrict(hard, Elems(c))
  }
}
