/** Observed robots and the configuration values the decision core reads. */
module Models {
  import opened Basics
  import opened Geometry

  /** A robot state enriched with monitor-local observations. */
  datatype Snapshot = Snapshot(
    id: RobotId,
    pose: Pose,
    nextPose: Pose,
    atGoal: bool,
    receivedAtMs: int,
    stale: bool,
    deadlineMs: int,
    loaded: bool,
    battery: real
  ) {
    /** Robots that are never commanded Resume. */
    predicate Unavailable() {
      atGoal || stale
    }
  }

  datatype Config = Config(
    tickIntervalSeconds: real,
    staleTimeoutSeconds: real,
    maximumExactComponentSize: int,
    maximumRepairCandidates: int,
    minimumHoldTicks: int,
    maximumHoldTicks: int,
    clearanceReleaseTicks: int,
    baseProgressValue: int,
    loadedBonus: int,
    deadlineUrgencyMaximum: int,
    deadlineHorizonMs: int,
    lowBatteryThreshold: real,
    lowBatteryBonus: int,
    waitingBonusPerTick: int,
    waitingAgeCap: int,
    grantContinuationBonus: int,
    clearanceBonusPerConflict: int
  ) {
    /** The constraints that configuration loading enforces. */
    predicate Valid() {
      && tickIntervalSeconds > 0.0
      && staleTimeoutSeconds > 0.0
      && maximumExactComponentSize >= 1
      && maximumRepairCandidates >= 1
      && 0 <= minimumHoldTicks <= maximumHoldTicks
      && clearanceReleaseTicks >= 1
      && baseProgressValue >= 0
      && loadedBonus >= 0
      && deadlineUrgencyMaximum >= 0
      && deadlineHorizonMs > 0
      && 0.0 < lowBatteryThreshold <= 100.0
      && lowBatteryBonus >= 0
      && waitingBonusPerTick >= 0
      && waitingAgeCap >= 0
      && grantContinuationBonus >= 0
      && clearanceBonusPerConflict >= 0
    }

    /** Age in whole milliseconds at which a state is stale. */
    function StaleLimitMs(): int {
      (staleTimeoutSeconds * 1000.0).Floor
    }

    /** The stale timeout rounded up to whole ticks, at least one. */
    function StaleTickLimit(): (limit: int)
      requires Valid()
      ensures limit >= 1
    {
      Max(1, -(-(staleTimeoutSeconds / tickIntervalSeconds)).Floor)
    }
  }

  /** The occupied region of a robot under an action. */
  function Envelope(k: Kernel, s: Snapshot, action: Action): Region {
    if action == Pause then k.footprint(s.pose) else k.sweep(s.pose, s.nextPose)
  }

  lemma PauseWithinResume(k: Kernel, s: Snapshot, action: Action)
    requires Sound(k)
    ensures Envelope(k, s, Pause) <= Envelope(k, s, action)
  {
  }
}
