/** The simulated fleet: one path node per Resume, closed into a loop with the decision engine. */
module Simulation {
  import opened Basics
  import opened Geometry
  import opened Models

  // ---------------------------------------------------------------- robot states and snapshots

  /** A published robot state; a non-empty path starts at the current pose. */
  datatype RobotState = RobotState(
    id: RobotId,
    timestampMs: int,
    pose: Pose,
    battery: real,
    loaded: bool,
    deadlineMs: int,
    path: seq<Pose>
  )

  /** Pose comparison within the configured tolerance; only its reflexivity is used. */
  type PoseMatch = (Pose, Pose) -> bool

  ghost predicate Reflexive(near: PoseMatch) {
    forall p :: near(p, p)
  }

  /** The next path pose, and whether the path is exhausted. */
  function DeriveNextPose(s: RobotState, near: PoseMatch): (Pose, bool) {
    if s.path == [] then
      (s.pose, true)
    else if |s.path| > 1 && near(s.pose, s.path[0]) then
      (s.path[1], false)
    else
      (s.path[0], false)
  }

  datatype StoredState = StoredState(state: RobotState, receivedMs: int)

  type Store = map<RobotId, StoredState>

  /** Keep the newest state of each robot; a state with an older source timestamp is rejected. */
  function UpdateStore(store: Store, s: RobotState, receivedMs: int): Result<Store> {
    if s.id in store && s.timestampMs < store[s.id].state.timestampMs then
      Raised(InvalidInput)
    else
      Ok(store[s.id := StoredState(s, receivedMs)])
  }

  function ToSnapshot(stored: StoredState, nowMs: int, cfg: Config, near: PoseMatch): Snapshot {
    var s := stored.state;
    var age := Max(nowMs - stored.receivedMs, 0);
    var (next, atGoal) := DeriveNextPose(s, near);
    Snapshot(
      s.id, s.pose, next, atGoal, Max(nowMs - age, 0), age as real / 1000.0 >= cfg.staleTimeoutSeconds,
      s.deadlineMs, s.loaded, s.battery
    )
  }

  lemma KnownInOrder(store: Store)
    ensures var ids := Ascending(store.Keys);
            |ids| == |store| && (forall n | 0 <= n < |ids| :: ids[n] in store)
            && forall r | r in store :: exists n :: 0 <= n < |ids| && ids[n] == r
  {
    var ids := Ascending(store.Keys);
    assert forall r :: r in ids <==> r in Elems(ids);
    assert |store.Keys| == |store|;
  }

  /** One snapshot per known robot, in identifier order. */
  function TakeSnapshots(store: Store, nowMs: int, cfg: Config, near: PoseMatch): (s: seq<Snapshot>)
    ensures |s| == |store|
  {
    KnownInOrder(store);
    var ids := Ascending(store.Keys);
    seq(|ids|, n requires 0 <= n < |ids| => ToSnapshot(store[ids[n]], nowMs, cfg, near))
  }

  lemma SnapshotAt(store: Store, nowMs: int, cfg: Config, near: PoseMatch, n: nat)
    requires n < |store|
    ensures n < |TakeSnapshots(store, nowMs, cfg, near)| && n < |Ascending(store.Keys)|
    ensures var r := Ascending(store.Keys)[n];
            r in store && TakeSnapshots(store, nowMs, cfg, near)[n] == ToSnapshot(store[r], nowMs, cfg, near)
  {
    hide ToSnapshot, Ascending;
    KnownInOrder(store);
  }

  /** Every known robot has its snapshot. */
  lemma SnapshotTaken(store: Store, nowMs: int, cfg: Config, near: PoseMatch, r: RobotId)
    requires r in store
    ensures ToSnapshot(store[r], nowMs, cfg, near) in TakeSnapshots(store, nowMs, cfg, near)
  {
    hide ToSnapshot, Ascending, TakeSnapshots;
    KnownInOrder(store);
    var n :| 0 <= n < |Ascending(store.Keys)| && Ascending(store.Keys)[n] == r;
    SnapshotAt(store, nowMs, cfg, near, n);
  }

  /** Every snapshot is of a known robot. */
  lemma SnapshotSource(store: Store, nowMs: int, cfg: Config, near: PoseMatch, x: Snapshot)
    requires x in TakeSnapshots(store, nowMs, cfg, near)
    ensures exists r :: r in store && x == ToSnapshot(store[r], nowMs, cfg, near)
  {
    hide ToSnapshot, Ascending, TakeSnapshots;
    KnownInOrder(store);
    var n :| 0 <= n < |TakeSnapshots(store, nowMs, cfg, near)| && TakeSnapshots(store, nowMs, cfg, near)[n] == x;
    SnapshotAt(store, nowMs, cfg, near, n);
  }

  // ---------------------------------------------------------------- the simulated robot

  /** What a robot's future depends on: its remaining path, latest action and terminal publication. */
  datatype View = View(path: seq<Pose>, action: Action, published: bool) {
    predicate AtGoal() {
      |path| <= 1
    }

    predicate Moves() {
      !AtGoal() && action == Resume
    }

    /** One tick of movement: a single node if the robot moves at all. */
    function Advance(): View {
      if Moves() then this.(path := path[1..]) else this
    }

    function Receive(a: Action): View {
      if AtGoal() then this else this.(action := a)
    }

    function MarkPublished(): View {
      if AtGoal() then this.(published := true) else this
    }
  }

  class SimulatedRobot {
    const id: RobotId
    const route: seq<Pose>
    const loaded: bool
    const battery: real
    const deadlineMs: int
    var pose: Pose
    var remainingPath: seq<Pose>
    var latestAction: Action
    var actionReceived: bool
    var pauses: nat
    var resumes: nat
    var nodesAdvanced: nat
    var goalTick: Option<int>
    var terminalStatePublished: bool

    /** The robot is somewhere on its route, and has a goal tick only at the end of it. */
    ghost predicate Valid()
      reads this
    {
      && nodesAdvanced < |route|
      && remainingPath == route[nodesAdvanced..]
      && pose == route[nodesAdvanced]
      && (goalTick.Some? ==> AtGoal())
    }

    predicate AtGoal()
      reads this
    {
      |remainingPath| <= 1
    }

    ghost function Seen(): View
      reads this
    {
      View(remainingPath, latestAction, terminalStatePublished)
    }

    constructor (id: RobotId, pose: Pose, futurePath: seq<Pose>, loaded: bool, battery: real, deadlineMs: int)
      ensures Valid() && this.id == id
      ensures Seen() == View([pose] + futurePath, Pause, false)
      ensures nodesAdvanced == 0 && pauses == 0 && resumes == 0 && !actionReceived
    {
      this.id, this.route := id, [pose] + futurePath;
      this.loaded, this.battery, this.deadlineMs := loaded, battery, deadlineMs;
      this.pose, remainingPath := pose, [pose] + futurePath;
      latestAction, actionReceived, pauses, resumes := Pause, false, 0, 0;
      nodesAdvanced, goalTick, terminalStatePublished := 0, None, false;
    }

    /** Move on by a node if the latest action allows it. */
    method AdvanceForTick(tick: int)
      requires Valid() && tick >= 1
      modifies this
      ensures Valid() && Seen() == old(Seen()).Advance()
      ensures nodesAdvanced == old(nodesAdvanced) + (if old(Seen()).Moves() then 1 else 0)
      ensures goalTick == if !old(AtGoal()) && AtGoal() then Some(tick) else old(goalTick)
      ensures unchanged(`pauses) && unchanged(`resumes) && unchanged(`actionReceived)
    {
      if AtGoal() || latestAction == Pause {
        return;
      }
      remainingPath := remainingPath[1..];
      pose := remainingPath[0];
      nodesAdvanced := nodesAdvanced + 1;
      if AtGoal() && goalTick.None? {
        goalTick := Some(tick);
      }
    }

    /** Remember the latest action. */
    method ReceiveAction(action: Action)
      requires Valid()
      modifies this
      ensures Valid() && Seen() == old(Seen()).(action := action)
      ensures actionReceived && nodesAdvanced == old(nodesAdvanced) && goalTick == old(goalTick)
      ensures resumes == old(resumes) + (if action == Resume then 1 else 0)
      ensures pauses == old(pauses) + (if action == Pause then 1 else 0)
    {
      latestAction, actionReceived := action, true;
      if action == Resume {
        resumes := resumes + 1;
      } else {
        pauses := pauses + 1;
      }
    }

    /** A robot at its goal reports its state only once more. */
    predicate ShouldPublishState()
      reads this
    {
      !AtGoal() || !terminalStatePublished
    }

    /** The state message: the remaining path, or an empty path at the goal. */
    function StatePayload(timestampMs: int): (s: RobotState)
      requires Valid()
      reads this
      ensures s.id == id && s.timestampMs == timestampMs && s.pose == remainingPath[0]
      ensures s.path == if AtGoal() then [] else remainingPath
    {
      RobotState(id, timestampMs, pose, battery, loaded, deadlineMs, if AtGoal() then [] else remainingPath)
    }

    method MarkStatePublished()
      requires Valid()
      modifies `terminalStatePublished
      ensures Valid() && Seen() == old(Seen()).MarkPublished()
    {
      if AtGoal() {
        terminalStatePublished := true;
      }
    }
  }
}
