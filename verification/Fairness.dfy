/** Waiting ages: the per-tick update, and what it means over a whole history of committed ticks. */
module Fairness {
  import opened Basics

  /** One committed tick: for each observed robot, whether it waited (Paused while not at goal). */
  type TickRecord = map<RobotId, bool>

  type Ages = map<RobotId, int>

  function AgeOf(ages: Ages, r: RobotId): int {
    if r in ages then ages[r] else 0
  }

  /** The capped update of one tick; robots that were not observed lose their age. */
  function FairnessStep(ages: Ages, tick: TickRecord, cap: int): Ages {
    map r | r in tick :: if tick[r] then Min(AgeOf(ages, r) + 1, cap) else 0
  }

  /** The ages after a run of committed ticks, starting from nothing. */
  function AgesAfter(history: seq<TickRecord>, cap: int): Ages {
    if history == [] then
      map[]
    else
      FairnessStep(AgesAfter(history[..|history| - 1], cap), history[|history| - 1], cap)
  }

  /** Length of the trailing streak of ticks in which the robot was present and waited. */
  function Streak(history: seq<TickRecord>, r: RobotId): nat {
    if history == [] then
      0
    else
      var last := history[|history| - 1];
      if r in last && last[r] then Streak(history[..|history| - 1], r) + 1 else 0
  }

  /** The stored waiting age is the capped length of the robot's current waiting streak, and ages are
      kept for exactly the robots observed at the last tick. */
  lemma {:induction false} WaitingAgeIsStreak(history: seq<TickRecord>, cap: int, r: RobotId)
    requires cap >= 0
    ensures AgeOf(AgesAfter(history, cap), r) == Min(cap, Streak(history, r))
    ensures r in AgesAfter(history, cap) <==> history != [] && r in history[|history| - 1]
  {
    if history != [] {
      WaitingAgeIsStreak(history[..|history| - 1], cap, r);
    }
  }

  /** Dropping the ages of robots that are absent from the next tick does not change it. */
  lemma AbsentAgesDoNotMatter(ages: Ages, kept: Ages, tick: TickRecord, cap: int)
    requires forall r | r in tick :: AgeOf(kept, r) == AgeOf(ages, r)
    ensures FairnessStep(kept, tick, cap) == FairnessStep(ages, tick, cap)
  {
  }
}
