/** Integer priority scoring: explicit per-term caps below one throughput reward per Resume. */
module Priority {
  import opened Basics
  import opened Conflicts
  import opened Models

  datatype PriorityBounds = PriorityBounds(
    componentSize: int,
    maximumSecondaryPerRobot: int,
    maximumComponentSecondary: int,
    throughputReward: int
  )

  datatype PriorityBreakdown = PriorityBreakdown(
    robotId: RobotId,
    baseProgressValue: int,
    loadedBonus: int,
    deadlineUrgency: int,
    lowBatteryUrgency: int,
    waitingAgeBonus: int,
    grantContinuationBonus: int,
    clearanceBonus: int,
    clearanceConflictCount: int,
    remainingSlackMs: int,
    secondaryScore: int,
    throughputReward: int,
    finalScore: int
  ) {
    function SumOfTerms(): int {
      baseProgressValue + loadedBonus + deadlineUrgency + lowBatteryUrgency + waitingAgeBonus
      + grantContinuationBonus + clearanceBonus
    }

    predicate TermsNonNegative() {
      && baseProgressValue >= 0 && loadedBonus >= 0 && deadlineUrgency >= 0 && lowBatteryUrgency >= 0
      && waitingAgeBonus >= 0 && grantContinuationBonus >= 0 && clearanceBonus >= 0
      && clearanceConflictCount >= 0 && remainingSlackMs >= 0
      && secondaryScore >= 0 && throughputReward >= 0 && finalScore >= 0
    }

    /** What construction enforces. */
    predicate Valid() {
      && TermsNonNegative()
      && secondaryScore == SumOfTerms()
      && finalScore == throughputReward + secondaryScore
    }
  }

  function MaximumPerRobot(size: int, cfg: Config): int {
    cfg.baseProgressValue
    + cfg.loadedBonus
    + cfg.deadlineUrgencyMaximum
    + cfg.lowBatteryBonus
    + cfg.waitingAgeCap * cfg.waitingBonusPerTick
    + cfg.grantContinuationBonus
    + (size - 1) * cfg.clearanceBonusPerConflict
  }

  function BoundsFor(size: int, cfg: Config): Result<PriorityBounds> {
    if size < 1 then
      Raised(InvalidInput)
    else
      var perRobot := MaximumPerRobot(size, cfg);
      var total := size * perRobot;
      Ok(PriorityBounds(size, perRobot, total, total + 1))
  }

  /** Bounded urgency and remaining slack, with floor division. */
  function DeadlineUrgency(deadlineMs: int, nowMs: int, cfg: Config): Result<(int, int)>
    requires cfg.Valid()
  {
    if nowMs < 0 then
      Raised(InvalidInput)
    else
      var slack := Max(deadlineMs - nowMs, 0);
      var bounded := Min(slack, cfg.deadlineHorizonMs);
      Ok((cfg.deadlineUrgencyMaximum * (cfg.deadlineHorizonMs - bounded) / cfg.deadlineHorizonMs, slack))
  }

  lemma MultipleGrows(a: int, b: int, d: int)
    requires d > 0
    ensures a >= b ==> a * d >= b * d
  {
  }

  lemma QuotientMonotone(n: int, m: int, d: int)
    requires n <= m && d > 0
    ensures n / d <= m / d
  {
    MultipleGrows(n / d, m / d + 1, d);
    assert (m / d + 1) * d == (m / d) * d + d;
  }

  lemma MultipleQuotient(q: int, d: int)
    requires d > 0
    ensures (q * d) / d == q
  {
    MultipleGrows((q * d) / d, q + 1, d);
    MultipleGrows(q - 1, (q * d) / d, d);
  }

  lemma DivisionBounds(maximum: int, part: int, whole: int)
    requires maximum >= 0 && 0 <= part <= whole && whole > 0
    ensures 0 <= maximum * part / whole <= maximum
    ensures part == 0 ==> maximum * part / whole == 0
    ensures part == whole ==> maximum * part / whole == maximum
  {
    MultipleGrows(whole, part, 1);
    assert 0 <= maximum * part <= maximum * whole;
    QuotientMonotone(maximum * part, maximum * whole, whole);
    QuotientMonotone(0, maximum * part, whole);
    MultipleQuotient(maximum, whole);
    MultipleQuotient(0, whole);
  }

  /** Urgency stays within its cap, is full at or after the deadline, vanishes at the horizon, and
      never rises as the slack grows. */
  lemma UrgencyIsBoundedAndAntitone(deadline: int, deadline': int, now: int, cfg: Config)
    requires cfg.Valid() && now >= 0
    ensures var u := DeadlineUrgency(deadline, now, cfg);
            u.Ok? && 0 <= u.value.0 <= cfg.deadlineUrgencyMaximum && u.value.1 >= 0
    ensures deadline <= now ==> DeadlineUrgency(deadline, now, cfg).value.0 == cfg.deadlineUrgencyMaximum
    ensures deadline >= now + cfg.deadlineHorizonMs ==> DeadlineUrgency(deadline, now, cfg).value.0 == 0
    ensures deadline <= deadline' ==>
              DeadlineUrgency(deadline', now, cfg).value.0 <= DeadlineUrgency(deadline, now, cfg).value.0
  {
    var h, top := cfg.deadlineHorizonMs, cfg.deadlineUrgencyMaximum;
    var part := h - Min(Max(deadline - now, 0), h);
    var part' := h - Min(Max(deadline' - now, 0), h);
    DivisionBounds(top, part, h);
    if deadline <= deadline' {
      assert part' <= part;
      assert top * part' <= top * part;
      QuotientMonotone(top * part', top * part, h);
    }
  }

  // ---------------------------------------------------------------- clearance opportunities

  /** A conflict edge on which `r` can move alone past the other robot's stationary footprint. */
  predicate ClearableBy(p: Compatibility, r: RobotId) {
    !p.AllSafe() && ((r == p.robotI && p.resumePause) || (r != p.robotI && r == p.robotJ && p.pauseResume))
  }

  function OtherRobot(p: Compatibility, r: RobotId): RobotId {
    if r == p.robotI then p.robotJ else p.robotI
  }

  /** How many entries `r` can clear; a pair listed twice counts twice. */
  function ClearableCount(r: RobotId, pairs: seq<Compatibility>): (count: nat)
    ensures count <= |pairs|
  {
    if pairs == [] then
      0
    else
      var last := |pairs| - 1;
      ClearableCount(r, pairs[..last]) + (if ClearableBy(pairs[last], r) then 1 else 0)
  }

  /** The robots past which `r` can move alone. */
  function Clearable(r: RobotId, pairs: seq<Compatibility>): set<RobotId> {
    set p | p in pairs && ClearableBy(p, r) :: OtherRobot(p, r)
  }

  lemma ClearableOther(r: RobotId, pairs: seq<Compatibility>, p: Compatibility)
    requires forall q | q in pairs :: PairBefore(q, p) && q.robotI < q.robotJ
    requires p.robotI < p.robotJ && ClearableBy(p, r)
    ensures OtherRobot(p, r) !in Clearable(r, pairs)
  {
    forall q | q in pairs && ClearableBy(q, r)
      ensures OtherRobot(q, r) != OtherRobot(p, r)
    {
      assert PairBefore(q, p);
    }
  }

  lemma ClearableGrows(r: RobotId, pairs: seq<Compatibility>, p: Compatibility)
    ensures Clearable(r, pairs + [p])
            == Clearable(r, pairs) + (if ClearableBy(p, r) then {OtherRobot(p, r)} else {})
  {
    hide ClearableBy, OtherRobot;
    forall q
      ensures q in pairs + [p] <==> q in pairs || q == p
    {
    }
  }

  lemma EarlierPairs(pairs: seq<Compatibility>)
    requires PairsSorted(pairs) && pairs != []
    ensures PairsSorted(pairs[..|pairs| - 1])
    ensures forall q | q in pairs[..|pairs| - 1] :: q in pairs && PairBefore(q, pairs[|pairs| - 1])
  {
    hide PairBefore;
  }

  /** On a sorted list the entries lead to distinct robots. */
  lemma {:induction false} CountIsClearable(r: RobotId, pairs: seq<Compatibility>)
    requires PairsSorted(pairs) && forall p | p in pairs :: p.robotI < p.robotJ
    ensures ClearableCount(r, pairs) == |Clearable(r, pairs)|
  {
    if pairs != [] {
      hide PairsSorted, PairBefore, ClearableBy, Clearable, OtherRobot;
      var (earlier, last) := (pairs[..|pairs| - 1], pairs[|pairs| - 1]);
      assert pairs == earlier + [last] && last in pairs;
      EarlierPairs(pairs);
      CountIsClearable(r, earlier);
      ClearableGrows(r, earlier, last);
      if ClearableBy(last, r) {
        ClearableOther(r, earlier, last);
      }
    } else {
      assert Clearable(r, pairs) == {};
    }
  }

  /** The opportunity counter of one robot, entry by entry. */
  method ClearanceOpportunityCount(r: RobotId, pairs: seq<Compatibility>) returns (count: nat)
    ensures count == ClearableCount(r, pairs)
    ensures PairsSorted(pairs) && (forall p | p in pairs :: p.robotI < p.robotJ) ==> count == |Clearable(r, pairs)|
  {
    hide PairsSorted, Clearable;
    count := 0;
    for n := 0 to |pairs|
      invariant count == ClearableCount(r, pairs[..n])
    {
      var pair := pairs[n];
      assert pairs[..n + 1][..n] == pairs[..n];
      if pair.Forbidden() == [] {
        continue;
      }
      var canClear;
      if r == pair.robotI {
        canClear := pair.IsSafe(Resume, Pause);
      } else if r == pair.robotJ {
        canClear := pair.IsSafe(Pause, Resume);
      } else {
        continue;
      }
      if canClear {
        count := count + 1;
      }
    }
    assert pairs[..|pairs|] == pairs;
    if PairsSorted(pairs) && forall p | p in pairs :: p.robotI < p.robotJ {
      CountIsClearable(r, pairs);
    }
  }

  /** Incident conflict edges lead to distinct other robots of the component. */
  lemma ClearanceWithinComponent(r: RobotId, ids: set<RobotId>, pairs: seq<Compatibility>)
    requires r in ids && OrderedPairs(pairs, ids) && PairsSorted(pairs)
    ensures ClearableCount(r, pairs) <= |ids| - 1
  {
    var others := ids - {r};
    CountIsClearable(r, pairs);
    assert Clearable(r, pairs) <= others;
    SubsetSize(Clearable(r, pairs), others);
  }

  lemma {:induction false} SubsetSize(a: set<RobotId>, b: set<RobotId>)
    requires a <= b
    ensures |a| <= |b|
  {
    assert b == a + (b - a);
  }

  // ---------------------------------------------------------------- scoring

  function CappedWaitingBonus(age: int, cfg: Config): int {
    Min(age, cfg.waitingAgeCap) * cfg.waitingBonusPerTick
  }

  /** The priority breakdown of one robot inside a component with the given pairs and size. */
  function ScoreRobot(
    s: Snapshot, pairs: seq<Compatibility>, cfg: Config, nowMs: int, waitingAge: int, activeGrant: bool, size: int
  ): Result<PriorityBreakdown>
    requires cfg.Valid()
  {
    if waitingAge < 0 then
      Raised(InvalidInput)
    else
      var bounds :- BoundsFor(size, cfg);
      var urgency :- DeadlineUrgency(s.deadlineMs, nowMs, cfg);
      var loaded := if s.loaded then cfg.loadedBonus else 0;
      var battery := if s.battery < cfg.lowBatteryThreshold then cfg.lowBatteryBonus else 0;
      var waiting := CappedWaitingBonus(waitingAge, cfg);
      var grant := if activeGrant then cfg.grantContinuationBonus else 0;
      var count := ClearableCount(s.id, pairs);
      if count > size - 1 then
        Raised(InvalidInput)
      else
        var clearance := count * cfg.clearanceBonusPerConflict;
        var secondary := cfg.baseProgressValue + loaded + urgency.0 + battery + waiting + grant + clearance;
        if secondary > bounds.maximumSecondaryPerRobot then
          Raised(InvalidInput)
        else
          var breakdown := PriorityBreakdown(
            s.id, cfg.baseProgressValue, loaded, urgency.0, battery, waiting, grant, clearance, count,
            urgency.1, secondary, bounds.throughputReward, bounds.throughputReward + secondary
          );
          if breakdown.Valid() then Ok(breakdown) else Raised(InvalidInput)
  }

  lemma ProductBound(a: int, b: int, c: int)
    requires 0 <= a <= b && c >= 0
    ensures 0 <= a * c <= b * c
  {
  }

  /** Scoring raises exactly when the opportunity counter exceeds the component; no other check can
      fail, and the secondary score stays within the bound behind the throughput reward. */
  lemma ScoringRaisesExactly(
    s: Snapshot, pairs: seq<Compatibility>, cfg: Config, nowMs: int, waitingAge: int, activeGrant: bool, size: int
  )
    requires cfg.Valid() && nowMs >= 0 && waitingAge >= 0 && size >= 1
    ensures var r := ScoreRobot(s, pairs, cfg, nowMs, waitingAge, activeGrant, size);
            && (r.Ok? <==> ClearableCount(s.id, pairs) <= size - 1)
            && (r.Ok? ==>
                  r.value.robotId == s.id && r.value.Valid()
                  && r.value.secondaryScore <= MaximumPerRobot(size, cfg)
                  && r.value.throughputReward == size * MaximumPerRobot(size, cfg) + 1
                  && r.value.clearanceConflictCount == ClearableCount(s.id, pairs))
  {
    hide ClearableCount, DeadlineUrgency;
    var count := ClearableCount(s.id, pairs);
    UrgencyIsBoundedAndAntitone(s.deadlineMs, s.deadlineMs, nowMs, cfg);
    ProductBound(Min(waitingAge, cfg.waitingAgeCap), cfg.waitingAgeCap, cfg.waitingBonusPerTick);
    if count <= size - 1 {
      ProductBound(count, size - 1, cfg.clearanceBonusPerConflict);
      ProductBound(0, size, MaximumPerRobot(size, cfg));
    }
  }

  /** In a component of a well-formed model it never raises: the count fits the component. */
  lemma ScoringNeverRaises(
    s: Snapshot, ids: set<RobotId>, pairs: seq<Compatibility>, cfg: Config, nowMs: int, waitingAge: int, activeGrant: bool
  )
    requires cfg.Valid() && nowMs >= 0 && waitingAge >= 0
    requires s.id in ids && OrderedPairs(pairs, ids) && PairsSorted(pairs)
    ensures var r := ScoreRobot(s, pairs, cfg, nowMs, waitingAge, activeGrant, |ids|);
            && r.Ok? && r.value.robotId == s.id && r.value.Valid()
            && r.value.secondaryScore <= MaximumPerRobot(|ids|, cfg)
            && r.value.throughputReward == |ids| * MaximumPerRobot(|ids|, cfg) + 1
            && r.value.clearanceConflictCount <= |ids| - 1
  {
    hide ScoreRobot, MaximumPerRobot, ClearableCount, OrderedPairs, PairsSorted;
    SubsetSize({s.id}, ids);
    ClearanceWithinComponent(s.id, ids, pairs);
    ScoringRaisesExactly(s, pairs, cfg, nowMs, waitingAge, activeGrant, |ids|);
  }
}
