/** The scenario runner: simulated robots in a loop with the engine over an in-memory transport. */
module Scenario {
  import opened Basics
  import opened ClosedLoop
  import opened Conflicts
  import opened Engine
  import opened Fairness
  import opened Geometry
  import opened GrantManagement
  import opened GrantRules
  import opened Models
  import opened Objective
  import opened Optimiser
  import opened Simulation
  import opened TickObjective
  import opened TickOutcome

  // ---------------------------------------------------------------- scenario definitions

  datatype RobotDefinition = RobotDefinition(
    id: RobotId,
    initialPose: Pose,
    path: seq<Pose>,
    loaded: bool,
    battery: real,
    deadlineOffsetMs: int
  )

  datatype ScenarioDefinition = ScenarioDefinition(robots: seq<RobotDefinition>, tickDurationMs: nat, maxTicks: int)

  predicate DistinctRobots(defs: seq<RobotDefinition>) {
    forall i, j | 0 <= i < j < |defs| :: defs[i].id != defs[j].id
  }

  function IdsOf(defs: seq<RobotDefinition>): seq<RobotId> {
    Ascending(set d | d in defs :: d.id)
  }

  function Lookup(defs: seq<RobotDefinition>, id: RobotId): (d: RobotDefinition)
    requires exists x :: x in defs && x.id == id
    ensures d in defs && d.id == id
  {
    if defs[0].id == id then defs[0] else Lookup(defs[1..], id)
  }

  lemma ListedIsDefined(defs: seq<RobotDefinition>, id: RobotId)
    requires id in IdsOf(defs)
    ensures exists x :: x in defs && x.id == id
  {
    assert id in Elems(IdsOf(defs));
  }

  /** The fleet before its first tick, in robot order. */
  function InitialViews(defs: seq<RobotDefinition>): (vs: seq<View>)
    ensures |vs| == |IdsOf(defs)| && OnRoute(vs) && forall v | v in vs :: v.action == Pause && !v.published
  {
    seq(|IdsOf(defs)|, i requires 0 <= i < |IdsOf(defs)| =>
      ListedIsDefined(defs, IdsOf(defs)[i]);
      var d := Lookup(defs, IdsOf(defs)[i]);
      View([d.initialPose] + d.path, Pause, false))
  }

  // ---------------------------------------------------------------- the fleet of robot objects

  /** The robots with these identifiers are in exactly these states. */
  ghost predicate Shows(robots: seq<SimulatedRobot>, ids: seq<RobotId>, vs: seq<View>)
    reads robots
  {
    && |robots| == |ids| == |vs| && StrictlyAscending(ids)
    && forall i | 0 <= i < |robots| :: robots[i].id == ids[i] && robots[i].Valid() && robots[i].Seen() == vs[i]
  }

  lemma ShownInOrder(robots: seq<SimulatedRobot>, ids: seq<RobotId>, vs: seq<View>)
    requires Shows(robots, ids, vs)
    ensures |robots| == |ids| == |vs| && StrictlyAscending(ids)
  {
  }

  method CreateRobot(defs: seq<RobotDefinition>, i: nat, startEpochMs: int) returns (robot: SimulatedRobot)
    requires i < |IdsOf(defs)|
    ensures fresh(robot) && robot.Valid() && robot.id == IdsOf(defs)[i] && robot.Seen() == InitialViews(defs)[i]
  {
    hide IdsOf, InitialViews, Lookup;
    InitialViewAt(defs, i);
    var d := Lookup(defs, IdsOf(defs)[i]);
    robot := new SimulatedRobot(d.id, d.initialPose, d.path, d.loaded, d.battery, startEpochMs + d.deadlineOffsetMs);
  }

  method CreateRobots(defs: seq<RobotDefinition>, startEpochMs: int) returns (robots: seq<SimulatedRobot>)
    ensures Shows(robots, IdsOf(defs), InitialViews(defs))
    ensures fresh(robots)
  {
    hide IdsOf, InitialViews, Lookup;
    var ids := IdsOf(defs);
    assert StrictlyAscending(ids) by {
      ListedInOrder(defs);
    }
    robots := [];
    for i := 0 to |ids|
      invariant |robots| == i && fresh(robots)
      invariant forall j | 0 <= j < i ::
                  robots[j].id == ids[j] && robots[j].Valid() && robots[j].Seen() == InitialViews(defs)[j]
    {
      var robot := CreateRobot(defs, i, startEpochMs);
      robots := robots + [robot];
    }
  }

  lemma ListedInOrder(defs: seq<RobotDefinition>)
    ensures StrictlyAscending(IdsOf(defs))
  {
  }

  lemma InitialViewAt(defs: seq<RobotDefinition>, i: nat)
    requires i < |IdsOf(defs)|
    ensures exists x :: x in defs && x.id == IdsOf(defs)[i]
    ensures var d := Lookup(defs, IdsOf(defs)[i]);
            InitialViews(defs)[i] == View([d.initialPose] + d.path, Pause, false)
  {
    ListedIsDefined(defs, IdsOf(defs)[i]);
  }

  method AdvanceAll(robots: seq<SimulatedRobot>, ids: seq<RobotId>, ghost vs: seq<View>, tick: int)
    requires Shows(robots, ids, vs) && tick >= 1
    modifies robots
    ensures Shows(robots, ids, Advanced(vs))
  {
    for i := 0 to |robots|
      invariant forall j | 0 <= j < |robots| ::
                  robots[j].Valid() && robots[j].Seen() == if j < i then vs[j].Advance() else vs[j]
    {
      robots[i].AdvanceForTick(tick);
    }
  }

  // ---------------------------------------------------------------- publication

  /** Robots that published at their goal are stored truly, and no state is newer than now. */
  predicate Stored(store: Store, ids: seq<RobotId>, vs: seq<View>, nowMs: int) {
    && |ids| == |vs| && store.Keys <= Elems(ids)
    && (forall r | r in store :: store[r].state.timestampMs <= nowMs)
    && forall i | 0 <= i < |ids| && vs[i].published :: vs[i].AtGoal() && StoredTruly(store, ids[i], vs[i])
  }

  /** The first `n` robots' states are up to date. */
  predicate PublishedUpTo(store: Store, ids: seq<RobotId>, vs: seq<View>, nowMs: int, n: nat)
    requires n <= |ids| == |vs|
  {
    forall i | 0 <= i < n :: UpToDate(store, ids[i], vs[i], nowMs)
  }

  predicate UpToDate(store: Store, id: RobotId, v: View, nowMs: int) {
    StoredTruly(store, id, v) && (!v.AtGoal() ==> store[id].receivedMs == nowMs)
  }

  /** Deliver the current state of every robot that publishes. */
  method PublishAll(robots: seq<SimulatedRobot>, ids: seq<RobotId>, ghost vs: seq<View>, store: Store, nowMs: int)
    returns (r: Result<Store>)
    requires Shows(robots, ids, vs) && OnRoute(vs) && Stored(store, ids, vs, nowMs)
    ensures r.Raised? ==> r.error == InvalidInput && nowMs < 0
    ensures r.Ok? ==> StoreMirrors(r.value, ids, vs) && JustReceived(r.value, ids, vs, nowMs)
    ensures r.Ok? ==> Stored(r.value, ids, vs, nowMs)
  {
    var current := store;
    for i := 0 to |robots|
      invariant Stored(current, ids, vs, nowMs) && PublishedUpTo(current, ids, vs, nowMs, i)
    {
      if robots[i].ShouldPublishState() {
        if nowMs < 0 {
          return Raised(InvalidInput);
        }
        var updated := UpdateStore(current, robots[i].StatePayload(nowMs), nowMs);
        StateIsStored(current, ids, vs, nowMs, i, robots[i].StatePayload(nowMs));
        current := updated.value;
      }
    }
    r := Ok(current);
  }

  /** Storing a robot's current state keeps everything else that is stored. */
  lemma StateIsStored(store: Store, ids: seq<RobotId>, vs: seq<View>, nowMs: int, i: nat, s: RobotState)
    requires StrictlyAscending(ids) && OnRoute(vs) && Stored(store, ids, vs, nowMs)
    requires i < |ids| && PublishedUpTo(store, ids, vs, nowMs, i)
    requires s.id == ids[i] && s.timestampMs == nowMs && s.pose == vs[i].path[0]
    requires s.path == if vs[i].AtGoal() then [] else vs[i].path
    ensures var updated := UpdateStore(store, s, nowMs);
            updated.Ok? && Stored(updated.value, ids, vs, nowMs) && PublishedUpTo(updated.value, ids, vs, nowMs, i + 1)
  {
    var updated := store[s.id := StoredState(s, nowMs)];
    assert ids[i] in Elems(ids);
    forall j | 0 <= j < |ids| && j != i
      ensures ids[j] in store <==> ids[j] in updated
      ensures ids[j] in store ==> updated[ids[j]] == store[ids[j]]
    {
      assert ids[j] != ids[i];
    }
    assert UpToDate(updated, ids[i], vs[i], nowMs);
    forall j | 0 <= j < i
      ensures UpToDate(updated, ids[j], vs[j], nowMs)
    {
      assert UpToDate(store, ids[j], vs[j], nowMs);
    }
  }

  // ---------------------------------------------------------------- delivery

  function Marked(vs: seq<View>): (ws: seq<View>)
    ensures |ws| == |vs|
  {
    seq(|vs|, i requires 0 <= i < |vs| => vs[i].MarkPublished())
  }

  function Received(ids: seq<RobotId>, vs: seq<View>, decisions: Assignment): (ws: seq<View>)
    requires |ids| == |vs| && forall id | id in ids :: id in decisions
    ensures |ws| == |vs|
  {
    seq(|vs|, i requires 0 <= i < |vs| => vs[i].Receive(decisions[ids[i]]))
  }

  /** Terminal publications recorded, then actions delivered. */
  function Commanded(ids: seq<RobotId>, vs: seq<View>, decisions: Assignment): (ws: seq<View>)
    requires |ids| == |vs| && forall id | id in ids :: id in decisions
    ensures IsDelivery(ids, vs, ws, decisions)
  {
    Received(ids, Marked(vs), decisions)
  }

  method MarkAll(robots: seq<SimulatedRobot>, ids: seq<RobotId>, ghost vs: seq<View>)
    requires Shows(robots, ids, vs)
    modifies robots
    ensures Shows(robots, ids, Marked(vs))
  {
    for i := 0 to |robots|
      invariant forall j | 0 <= j < |robots| ::
                  robots[j].Valid() && robots[j].Seen() == if j < i then vs[j].MarkPublished() else vs[j]
    {
      if robots[i].ShouldPublishState() {
        robots[i].MarkStatePublished();
      }
    }
  }

  method DeliverAll(robots: seq<SimulatedRobot>, ids: seq<RobotId>, ghost vs: seq<View>, decisions: Assignment)
    requires Shows(robots, ids, vs) && forall id | id in ids :: id in decisions
    modifies robots
    ensures Shows(robots, ids, Received(ids, vs, decisions))
  {
    for i := 0 to |robots|
      invariant forall j | 0 <= j < |robots| ::
                  robots[j].Valid() && robots[j].Seen() == if j < i then vs[j].Receive(decisions[ids[j]]) else vs[j]
    {
      if !robots[i].AtGoal() {
        robots[i].ReceiveAction(decisions[ids[i]]);
      }
    }
  }

  // ---------------------------------------------------------------- one tick

  /** A store that mirrors the fleet yields valid input for the engine. */
  lemma MirrorIsValidInput(
    store: Store, ids: seq<RobotId>, vs: seq<View>, nowMs: int, cfg: Config, near: PoseMatch
  )
    requires StrictlyAscending(ids) && StoreMirrors(store, ids, vs) && nowMs >= 0
    ensures ValidInput(TakeSnapshots(store, nowMs, cfg, near), nowMs)
    ensures |TakeSnapshots(store, nowMs, cfg, near)| == |ids|
  {
    hide StoreMirrors, TakeSnapshots, Ascending, DistinctIds;
    var s := TakeSnapshots(store, nowMs, cfg, near);
    SnapshotIds(store, ids, vs, nowMs, cfg, near);
    DistinctCardinality(ids);
    forall x | x in s
      ensures x.receivedAtMs >= 0
    {
      SnapshotSource(store, nowMs, cfg, near, x);
      var r :| r in store && x == ToSnapshot(store[r], nowMs, cfg, near);
    }
  }

  lemma SnapshotIds(store: Store, ids: seq<RobotId>, vs: seq<View>, nowMs: int, cfg: Config, near: PoseMatch)
    requires StoreMirrors(store, ids, vs)
    ensures DistinctIds(TakeSnapshots(store, nowMs, cfg, near))
    ensures |store| == |Elems(ids)|
  {
    hide StoreMirrors, Ascending, TakeSnapshots;
    MirrorIsOnRoute(store, ids, vs);
    assert |store| == |store.Keys|;
    var known := Ascending(store.Keys);
    var s := TakeSnapshots(store, nowMs, cfg, near);
    forall n: nat | n < |s|
      ensures s[n].id == known[n]
    {
      SnapshotAt(store, nowMs, cfg, near, n);
      StoredId(store, ids, vs, known[n]);
    }
  }

  /** The tick on this store fails in this state, with this error. */
  ghost predicate StoreFails(
    error: Error, store: Store, nowMs: int, k: Kernel, cfg: Config, near: PoseMatch, state: EngineState,
    solver: Option<Solver>
  ) {
    cfg.Valid() && exists m ::
      Observed(m, k, TakeSnapshots(store, nowMs, cfg, near), nowMs, cfg) && FailsIn(error, m, nowMs, cfg, state, solver)
  }

  /** Decide on the published states; the tick epoch is never older than any of them. */
  method ExchangeTick(
    engine: CollisionDecisionEngine, ids: seq<RobotId>, ghost vs: seq<View>, store: Store, nowMs: int, near: PoseMatch,
    solver: Option<Solver>
  )
    returns (r: Result<FleetDecision>)
    requires engine.Valid() && Reflexive(near) && StrictlyAscending(ids) && StoreMirrors(store, ids, vs)
    modifies engine
    ensures engine.Valid() && (engine.grantManager == old(engine.grantManager) || fresh(engine.grantManager))
    ensures r == Raised(InvalidInput) <==> nowMs < 0
    ensures r.Raised? && nowMs >= 0 ==>
      StoreFails(r.error, store, nowMs, engine.kernel, engine.config, near, old(engine.State()), solver)
    ensures r.Ok? ==>
      && Observed(
           r.value.model, engine.kernel, TakeSnapshots(store, nowMs, engine.config, near), nowMs, engine.config)
      && SafeTick(r.value, engine.kernel) && LiveTick(r.value) && ExactAlarms(r.value, engine.kernel)
      && r.value.decisions.Keys == Elems(ids)
      && engine.config.Valid() && DecidedIn(r.value, nowMs, engine.config, old(engine.State()), solver)
      && StateAfter(r.value, nowMs, engine.config, old(engine.State()), engine.State())
  {
    hide SafeTick, LiveTick, ExactAlarms, NobodyPreempted, TickOverflows, TickRejected, DecidedByObjective, GrantsEvolve,
      GrantsTrackResumes, Observed, StoreMirrors, Reflexive, ValidInput, Newcomers, LeasesOk, FairnessStep, WaitingRecord,
      TakeSnapshots, ObservedAges, Sound, AgesAfter;
    var snapshots := TakeSnapshots(store, nowMs, engine.config, near);
    if nowMs >= 0 {
      MirrorIsValidInput(store, ids, vs, nowMs, engine.config, near);
    }
    NegativeTimeIsInvalid(snapshots, nowMs);
    ghost var m;
    r, m := engine.Decide(snapshots, nowMs, solver);
    if r.Ok? {
      SafeTickFacts(r.value, engine.kernel);
      ObservedKeys(r.value.model, engine.kernel, store, ids, vs, nowMs, engine.config, near);
    } else if nowMs >= 0 {
      assert FailsIn(r.error, m, nowMs, engine.config, old(engine.State()), solver);
    }
  }

  lemma NegativeTimeIsInvalid(snapshots: seq<Snapshot>, nowMs: int)
    ensures ValidInput(snapshots, nowMs) ==> nowMs >= 0
  {
  }

  /** The round in which a fleet in states `vs` steps, is observed, and takes the decided actions. */
  ghost function RoundOf(
    ids: seq<RobotId>, vs: seq<View>, state: EngineState, solver: Option<Solver>, store: Store, nowMs: int,
    d: FleetDecision
  ): Round
    requires |ids| == |vs| && forall id | id in ids :: id in d.decisions
  {
    Round(state, solver, store, nowMs, Advanced(vs), d, Commanded(ids, Advanced(vs), d.decisions))
  }

  /** Advance the fleet and publish its states. */
  method AdvanceAndPublish(
    robots: seq<SimulatedRobot>, ids: seq<RobotId>, ghost vs: seq<View>, store: Store, tick: int, nowMs: int
  )
    returns (r: Result<Store>)
    requires tick >= 1 && Shows(robots, ids, vs) && OnRoute(vs) && Stored(store, ids, vs, nowMs)
    modifies robots
    ensures Shows(robots, ids, Advanced(vs)) && OnRoute(Advanced(vs))
    ensures r.Raised? ==> r.error == InvalidInput && nowMs < 0
    ensures r.Ok? ==> StoreMirrors(r.value, ids, Advanced(vs)) && JustReceived(r.value, ids, Advanced(vs), nowMs)
    ensures r.Ok? ==> Stored(r.value, ids, Advanced(vs), nowMs)
  {
    hide StoreMirrors, JustReceived, Stored, OnRoute, Shows;
    AdvanceAll(robots, ids, vs, tick);
    AdvanceKeepsStored(store, ids, vs, nowMs);
    r := PublishAll(robots, ids, Advanced(vs), store, nowMs);
  }

  /** The tick on a store that mirrors the observed fleet fails. */
  ghost predicate FleetFails(
    error: Error, ids: seq<RobotId>, observed: seq<View>, nowMs: int, k: Kernel, cfg: Config, near: PoseMatch,
    state: EngineState, solver: Option<Solver>
  ) {
    exists store ::
      StoreMirrors(store, ids, observed) && JustReceived(store, ids, observed, nowMs)
      && StoreFails(error, store, nowMs, k, cfg, near, state, solver)
  }

  /** Record the terminal publications and deliver the decided actions. */
  method MarkAndDeliver(
    robots: seq<SimulatedRobot>, ids: seq<RobotId>, ghost vs: seq<View>, decisions: Assignment, ghost store: Store,
    ghost nowMs: int
  )
    requires Shows(robots, ids, vs) && decisions.Keys == Elems(ids)
    requires OnRoute(vs) && StoreMirrors(store, ids, vs) && Stored(store, ids, vs, nowMs)
    modifies robots
    ensures |ids| == |vs| && forall id | id in ids :: id in decisions
    ensures Shows(robots, ids, Commanded(ids, vs, decisions)) && IsDelivery(ids, vs, Commanded(ids, vs, decisions), decisions)
    ensures OnRoute(Commanded(ids, vs, decisions)) && Stored(store, ids, Commanded(ids, vs, decisions), nowMs)
  {
    hide StoreMirrors, Stored, OnRoute, Shows, IsDelivery;
    ShownInOrder(robots, ids, vs);
    assert forall id | id in ids :: id in Elems(ids);
    MarkAll(robots, ids, vs);
    DeliverAll(robots, ids, Marked(vs), decisions);
    CommandKeepsStored(store, ids, vs, nowMs, decisions);
  }

  /** Advance the fleet, publish its states, decide, and deliver the decided actions. */
  method RunTick(
    engine: CollisionDecisionEngine, robots: seq<SimulatedRobot>, ids: seq<RobotId>, ghost vs: seq<View>, store: Store,
    tick: int, nowMs: int, near: PoseMatch, solver: Option<Solver>
  )
    returns (r: Result<(FleetDecision, Store)>)
    requires engine.Valid() && Reflexive(near) && tick >= 1
    requires Shows(robots, ids, vs) && OnRoute(vs) && Stored(store, ids, vs, nowMs)
    modifies engine, robots
    ensures engine.Valid() && (engine.grantManager == old(engine.grantManager) || fresh(engine.grantManager))
    ensures r == Raised(InvalidInput) <==> nowMs < 0
    ensures r.Raised? && nowMs >= 0 ==>
      FleetFails(r.error, ids, Advanced(vs), nowMs, engine.kernel, engine.config, near, old(engine.State()), solver)
    ensures r.Ok? ==>
      var (d, updated) := r.value;
      && |ids| == |vs| && (forall id | id in ids :: id in d.decisions)
      && var round := RoundOf(ids, vs, old(engine.State()), solver, updated, nowMs, d);
      && IsRound(round, ids, engine.kernel, engine.config, near)
      && engine.config.Valid() && StateAfter(d, nowMs, engine.config, round.state, engine.State())
      && Shows(robots, ids, round.commanded) && OnRoute(round.commanded)
      && Stored(updated, ids, round.commanded, nowMs)
  {
    hide Observed, SafeTick, LiveTick, ExactAlarms, StoreMirrors, JustReceived, Reflexive, Stored, StoreFails, OnRoute,
      Shows, IsDelivery, CollisionDecisionEngine.Valid, CollisionDecisionEngine.State, DecidedIn, StateAfter, Commanded,
      TakeSnapshots;
    ShownInOrder(robots, ids, vs);
    ghost var observed := Advanced(vs);
    ghost var (manager, state) := (engine.grantManager, engine.State());
    var published := AdvanceAndPublish(robots, ids, vs, store, tick, nowMs);
    assert engine.Valid() && engine.grantManager == manager && engine.State() == state;
    if published.Raised? {
      return Raised(InvalidInput);
    }
    var decided := ExchangeTick(engine, ids, observed, published.value, nowMs, near, solver);
    if decided.Raised? {
      return Raised(decided.error);
    }
    var d := decided.value;
    ghost var after := engine.State();
    MarkAndDeliver(robots, ids, observed, d.decisions, published.value, nowMs);
    assert engine.State() == after;
    r := Ok((d, published.value));
  }

  lemma AdvanceKeepsStored(store: Store, ids: seq<RobotId>, vs: seq<View>, nowMs: int)
    requires OnRoute(vs) && Stored(store, ids, vs, nowMs)
    ensures OnRoute(Advanced(vs)) && Stored(store, ids, Advanced(vs), nowMs)
  {
  }

  lemma CommandKeepsStored(store: Store, ids: seq<RobotId>, vs: seq<View>, nowMs: int, decisions: Assignment)
    requires |ids| == |vs| && (forall id | id in ids :: id in decisions)
    requires OnRoute(vs) && StoreMirrors(store, ids, vs) && Stored(store, ids, vs, nowMs)
    ensures OnRoute(Commanded(ids, vs, decisions)) && Stored(store, ids, Commanded(ids, vs, decisions), nowMs)
  {
    var ws := Commanded(ids, vs, decisions);
    forall i | 0 <= i < |ids|
      ensures ws[i].path == vs[i].path
      ensures ws[i].published ==> ws[i].AtGoal() && StoredTruly(store, ids[i], ws[i])
    {
      assert StoredTruly(store, ids[i], vs[i]);
    }
  }

  // ---------------------------------------------------------------- whole scenarios

  datatype SimulationResult = SimulationResult(ticks: nat, completed: bool, decisions: seq<FleetDecision>)

  /** The logical time of the tick after `t` earlier ones. */
  function TickTime(startEpochMs: int, tickDurationMs: nat, t: nat): (now: int)
    ensures now >= startEpochMs
  {
    startEpochMs + t * tickDurationMs
  }

  lemma TimeAdvances(startEpochMs: int, tickDurationMs: nat, t: nat)
    ensures TickTime(startEpochMs, tickDurationMs, t) <= TickTime(startEpochMs, tickDurationMs, t + 1)
  {
  }

  predicate ValidScenario(scenario: ScenarioDefinition, maximumTicks: Option<int>, startEpochMs: int) {
    && scenario.robots != [] && DistinctRobots(scenario.robots)
    && maximumTicks.GetOr(scenario.maxTicks) >= 1
    && startEpochMs >= 0
  }

  /** Each round takes place at its logical time and consults its own solver. */
  ghost predicate OnSchedule(
    rounds: seq<Round>, scenario: ScenarioDefinition, startEpochMs: int, solvers: nat -> Option<Solver>
  ) {
    forall t: nat | t < |rounds| ::
      rounds[t].nowMs == TickTime(startEpochMs, scenario.tickDurationMs, t) && rounds[t].solver == solvers(t + 1)
  }

  /** Only the last round may have everybody arrived. */
  predicate StopsOnArrival(rounds: seq<Round>, arrived: bool) {
    forall t: nat | t < |rounds| :: AllAtGoal(rounds[t].observed) <==> arrived && t == |rounds| - 1
  }

  ghost predicate Decided(rounds: seq<Round>, decisions: seq<FleetDecision>) {
    |rounds| == |decisions| && forall t: nat | t < |rounds| :: decisions[t] == rounds[t].decision
  }

  /** The rounds behind a result: a run that stops at the first tick by which everybody has arrived. */
  ghost predicate Records(result: SimulationResult, rounds: seq<Round>, limit: int) {
    && Decided(rounds, result.decisions) && 1 <= |rounds| == result.ticks <= limit
    && StopsOnArrival(rounds, result.completed)
    && (!result.completed ==> result.ticks == limit)
  }

  lemma ScheduleGrows(
    rounds: seq<Round>, scenario: ScenarioDefinition, startEpochMs: int, solvers: nat -> Option<Solver>, round: Round
  )
    requires OnSchedule(rounds, scenario, startEpochMs, solvers)
    requires round.nowMs == TickTime(startEpochMs, scenario.tickDurationMs, |rounds|)
    requires round.solver == solvers(|rounds| + 1)
    ensures OnSchedule(rounds + [round], scenario, startEpochMs, solvers)
  {
    hide TickTime;
  }

  lemma ProgressGrows(rounds: seq<Round>, decisions: seq<FleetDecision>, round: Round, arrived: bool)
    requires Decided(rounds, decisions) && StopsOnArrival(rounds, false)
    requires arrived <==> AllAtGoal(round.observed)
    ensures Decided(rounds + [round], decisions + [round.decision]) && StopsOnArrival(rounds + [round], arrived)
  {
    hide AllAtGoal;
  }

  method AllArrived(robots: seq<SimulatedRobot>, ids: seq<RobotId>, ghost vs: seq<View>) returns (b: bool)
    requires Shows(robots, ids, vs)
    ensures b <==> AllAtGoal(vs)
  {
    b := true;
    for i := 0 to |robots|
      invariant b <==> forall j | 0 <= j < i :: vs[j].AtGoal()
    {
      b := b && robots[i].AtGoal();
    }
  }

  lemma SameGoals(vs: seq<View>, ws: seq<View>)
    requires |vs| == |ws| && forall i | 0 <= i < |vs| :: ws[i].path == vs[i].path
    ensures AllAtGoal(ws) <==> AllAtGoal(vs)
  {
    assert forall i | 0 <= i < |vs| :: ws[i].AtGoal() == vs[i].AtGoal();
  }

  lemma DefinedRobots(defs: seq<RobotDefinition>)
    requires DistinctRobots(defs)
    ensures |IdsOf(defs)| == |defs|
  {
    var listed := seq(|defs|, i requires 0 <= i < |defs| => defs[i].id);
    var ids := set d | d in defs :: d.id;
    forall id
      ensures id in Elems(listed) <==> id in ids
    {
      if id in ids {
        var d :| d in defs && d.id == id;
        var i :| 0 <= i < |defs| && defs[i] == d;
        assert listed[i] == id;
      }
    }
    assert Elems(listed) == ids;
    DistinctCardinality(listed);
  }

  lemma SameBefore(initial: seq<View>, rounds: seq<Round>, round: Round, t: nat)
    requires t <= |rounds|
    ensures CommandedBefore(initial, rounds + [round], t) == CommandedBefore(initial, rounds, t)
  {
  }

  lemma SameStateBefore(rounds: seq<Round>, round: Round, cfg: Config, t: nat, state: EngineState)
    requires t <= |rounds|
    ensures IsStateBefore(rounds + [round], cfg, t, state) <==> IsStateBefore(rounds, cfg, t, state)
  {
    hide StateAfter;
  }

  lemma RunGrows(
    ids: seq<RobotId>, initial: seq<View>, rounds: seq<Round>, round: Round, k: Kernel, cfg: Config, near: PoseMatch
  )
    requires IsRun(ids, initial, rounds, k, cfg, near) && IsRound(round, ids, k, cfg, near)
    requires round.observed == Advanced(CommandedBefore(initial, rounds, |rounds|))
    requires IsStateBefore(rounds, cfg, |rounds|, round.state)
    ensures IsRun(ids, initial, rounds + [round], k, cfg, near)
  {
    hide IsRound, Advanced, CommandedBefore, IsStateBefore;
    var grown := rounds + [round];
    forall t: nat | t < |grown|
      ensures IsRound(grown[t], ids, k, cfg, near)
      ensures grown[t].observed == Advanced(CommandedBefore(initial, grown, t))
      ensures IsStateBefore(grown, cfg, t, grown[t].state)
    {
      SameBefore(initial, rounds, round, t);
      SameStateBefore(rounds, round, cfg, t, grown[t].state);
      assert grown[t] == if t < |rounds| then rounds[t] else round;
    }
  }

  lemma LastState(rounds: seq<Round>, round: Round, cfg: Config, state: EngineState)
    requires cfg.Valid() && StateAfter(round.decision, round.nowMs, cfg, round.state, state)
    ensures IsStateBefore(rounds + [round], cfg, |rounds| + 1, state)
  {
    hide StateAfter;
  }

  /** Some tick's solver may break its contract. */
  ghost predicate SomeDishonest(solvers: nat -> Option<Solver>, limit: int) {
    exists t: nat | 1 <= t <= limit :: !Honest(solvers(t))
  }

  ghost predicate SomeAlarm(rounds: seq<Round>) {
    exists t: nat | t < |rounds| :: UnresolvableWithPauseResume in rounds[t].decision.alarms
  }

  lemma NothingYet(
    ids: seq<RobotId>, initial: seq<View>, k: Kernel, cfg: Config, near: PoseMatch, nowMs: int,
    scenario: ScenarioDefinition, startEpochMs: int, solvers: nat -> Option<Solver>
  )
    requires |ids| == |initial| && forall v | v in initial :: !v.published
    ensures OnSchedule([], scenario, startEpochMs, solvers) && Decided([], []) && StopsOnArrival([], false)
    ensures IsRun(ids, initial, [], k, cfg, near) && Stored(map[], ids, initial, nowMs)
    ensures IsStateBefore([], cfg, 0, EngineState(map[], map[], 0))
  {
    assert forall i | 0 <= i < |initial| :: initial[i] in initial;
  }

  // ---------------------------------------------------------------- failures of a run

  /** The tick after these rounds fails with this error. */
  ghost predicate NextTickFails(
    error: Error, ids: seq<RobotId>, initial: seq<View>, rounds: seq<Round>, nowMs: int, k: Kernel, cfg: Config,
    near: PoseMatch, solver: Option<Solver>
  ) {
    exists state ::
      IsStateBefore(rounds, cfg, |rounds|, state)
      && FleetFails(
           error, ids, Advanced(CommandedBefore(initial, rounds, |rounds|)), nowMs, k, cfg, near, state, solver)
  }

  lemma FailureCause(
    error: Error, m: ConflictModel, k: Kernel, snapshots: seq<Snapshot>, nowMs: int, cfg: Config, state: EngineState,
    solver: Option<Solver>
  )
    requires cfg.Valid() && Observed(m, k, snapshots, nowMs, cfg) && FailsIn(error, m, nowMs, cfg, state, solver)
    ensures (error == ObjectiveOverflow && !FleetFits(|m.snapshots|, cfg))
            || (error == UnsafeResult && !Honest(solver))
  {
    hide WellFormedModel, Usable, Faithful, Indexes, TickOverflows, TickRejected, FleetFits, Honest, ObservedAges;
    WellFormedIsUsable(m);
    var (ages, tick) := (ObservedAges(state.ages, m), state.tickId + 1);
    if TickRejected(cfg, m, nowMs, ages, state.grants, tick, solver) {
      HonestIsNotRejected(cfg, m, nowMs, ages, state.grants, tick, solver);
    }
    if FleetFits(|m.snapshots|, cfg) {
      FittingTickDoesNotOverflow(cfg, m, nowMs, ages, state.grants, tick);
    }
  }

  /** A failing tick has a configuration that does not fit the fleet, or a dishonest solver. */
  lemma FleetFailureCause(
    error: Error, ids: seq<RobotId>, observed: seq<View>, nowMs: int, k: Kernel, cfg: Config, near: PoseMatch,
    state: EngineState, solver: Option<Solver>
  )
    requires Reflexive(near) && StrictlyAscending(ids)
    requires FleetFails(error, ids, observed, nowMs, k, cfg, near, state, solver)
    ensures (error == ObjectiveOverflow && !FleetFits(|ids|, cfg)) || (error == UnsafeResult && !Honest(solver))
  {
    hide StoreMirrors, JustReceived, Reflexive, Observed, FailsIn, FleetFits, Honest, TakeSnapshots;
    var store :|
      StoreMirrors(store, ids, observed) && JustReceived(store, ids, observed, nowMs)
      && StoreFails(error, store, nowMs, k, cfg, near, state, solver);
    var m :|
      Observed(m, k, TakeSnapshots(store, nowMs, cfg, near), nowMs, cfg) && FailsIn(error, m, nowMs, cfg, state, solver);
    FailureCause(error, m, k, TakeSnapshots(store, nowMs, cfg, near), nowMs, cfg, state, solver);
    ObservedKeys(m, k, store, ids, observed, nowMs, cfg, near);
    DistinctCardinality(ids);
    assert |m.snapshots| == |m.snapshots.Keys|;
  }

  lemma FailureOf(
    error: Error, ids: seq<RobotId>, initial: seq<View>, rounds: seq<Round>, nowMs: int, k: Kernel, cfg: Config,
    near: PoseMatch, solvers: nat -> Option<Solver>, limit: int
  )
    requires Reflexive(near) && StrictlyAscending(ids) && |rounds| < limit
    requires NextTickFails(error, ids, initial, rounds, nowMs, k, cfg, near, solvers(|rounds| + 1))
    ensures (error == ObjectiveOverflow && !FleetFits(|ids|, cfg))
            || (error == UnsafeResult && SomeDishonest(solvers, limit))
  {
    hide FleetFails, FleetFits, Honest, Reflexive, StrictlyAscending, IsStateBefore;
    var observed := Advanced(CommandedBefore(initial, rounds, |rounds|));
    var state :|
      IsStateBefore(rounds, cfg, |rounds|, state)
      && FleetFails(error, ids, observed, nowMs, k, cfg, near, state, solvers(|rounds| + 1));
    FleetFailureCause(error, ids, observed, nowMs, k, cfg, near, state, solvers(|rounds| + 1));
  }

  // ---------------------------------------------------------------- conclusions about a run

  lemma EveryRoundApart(
    ids: seq<RobotId>, initial: seq<View>, rounds: seq<Round>, k: Kernel, cfg: Config, near: PoseMatch
  )
    requires Sound(k) && StrictlyAscending(ids) && Reflexive(near)
    requires OnRoute(initial) && StandingApart(k, initial) && (forall v | v in initial :: v.action == Pause)
    requires IsRun(ids, initial, rounds, k, cfg, near)
    ensures forall t: nat | t < |rounds| :: ApartRound(rounds[t], k)
  {
    hide Sound, Reflexive, StandingApart, IsRun, ApartRound;
    forall t: nat | t < |rounds|
      ensures ApartRound(rounds[t], k)
    {
      RunStaysApart(ids, initial, rounds, k, cfg, near, t);
    }
  }

  /** No two robots of the repository's shape touch at any moment of the step after this round. */
  ghost predicate NeverTouchingAfter(round: Round, b: Body, t: Trigonometry) {
    OnRoute(round.commanded) && NeverTouching(b, t, round.commanded)
  }

  lemma EveryStepApart(
    ids: seq<RobotId>, initial: seq<View>, rounds: seq<Round>, b: Body, t: Trigonometry, cfg: Config, near: PoseMatch
  )
    requires ValidBody(b) && Pythagorean(t) && StrictlyAscending(ids) && Reflexive(near)
    requires OnRoute(initial) && StandingApart(IdealKernel(b, t), initial)
    requires forall v | v in initial :: v.action == Pause
    requires IsRun(ids, initial, rounds, IdealKernel(b, t), cfg, near)
    ensures forall n: nat | n < |rounds| :: NeverTouchingAfter(rounds[n], b, t)
  {
    hide ValidBody, Pythagorean, Reflexive, StandingApart, IsRun, NeverTouching, IdealKernel, OnRoute;
    forall n: nat | n < |rounds|
      ensures NeverTouchingAfter(rounds[n], b, t)
    {
      RunNeverTouches(ids, initial, rounds, b, t, cfg, near, n);
    }
  }

  /** What becomes of a fleet that starts at rest: with a stale limit of at least one millisecond a run longer
      than the remaining path arrives or raises the alarm, and with less it never arrives. */
  ghost predicate Progresses(
    result: SimulationResult, rounds: seq<Round>, initial: seq<View>, cfg: Config, limit: int
  ) {
    && (cfg.StaleLimitMs() >= 1 && limit > Remaining(initial) ==> result.completed || SomeAlarm(rounds))
    && (cfg.StaleLimitMs() <= 0 && Remaining(initial) > 0 ==> !result.completed)
  }

  lemma ScheduledRoundsAreLater(
    rounds: seq<Round>, scenario: ScenarioDefinition, startEpochMs: int, solvers: nat -> Option<Solver>
  )
    requires OnSchedule(rounds, scenario, startEpochMs, solvers) && startEpochMs >= 0
    ensures forall t: nat | t < |rounds| :: rounds[t].nowMs >= 0
  {
  }

  lemma RunProgresses(
    ids: seq<RobotId>, initial: seq<View>, rounds: seq<Round>, k: Kernel, cfg: Config, near: PoseMatch,
    result: SimulationResult, limit: int
  )
    requires Reflexive(near) && cfg.Valid() && (forall v | v in initial :: v.action == Pause)
    requires IsRun(ids, initial, rounds, k, cfg, near) && Records(result, rounds, limit)
    requires forall t: nat | t < |rounds| :: rounds[t].nowMs >= 0
    ensures Progresses(result, rounds, initial, cfg, limit)
  {
    hide Reflexive, IsRun, AllAtGoal, Remaining, Decided;
    var last := |rounds| - 1;
    if cfg.StaleLimitMs() >= 1 {
      if !result.completed && |rounds| > Remaining(initial) && !SomeAlarm(rounds) {
        assert QuietBefore(rounds, last);
        QuietRunProgresses(ids, initial, rounds, k, cfg, near, last);
      }
    } else {
      ZeroLimitRunRests(ids, initial, rounds, k, cfg, near, last);
      SamePathsRemain(initial, rounds[last].observed);
      ArrivedRemains(rounds[last].observed);
    }
  }

  // ---------------------------------------------------------------- the scenario runner

  /** The tick loop: until everybody has arrived or the limit is reached. */
  method RunTicks(
    engine: CollisionDecisionEngine, robots: seq<SimulatedRobot>, ids: seq<RobotId>, ghost initial: seq<View>,
    scenario: ScenarioDefinition, near: PoseMatch, solvers: nat -> Option<Solver>, startEpochMs: int, limit: int
  )
    returns (r: Result<SimulationResult>, ghost rounds: seq<Round>)
    requires engine.Valid() && engine.State() == EngineState(map[], map[], 0) && Reflexive(near)
    requires Shows(robots, ids, initial) && OnRoute(initial) && (forall v | v in initial :: !v.published)
    requires limit >= 1 && startEpochMs >= 0
    modifies engine, robots
    ensures IsRun(ids, initial, rounds, engine.kernel, engine.config, near)
    ensures OnSchedule(rounds, scenario, startEpochMs, solvers)
    ensures r.Ok? ==> Records(r.value, rounds, limit)
    ensures r.Raised? ==>
      && r.error != InvalidInput && |rounds| < limit
      && NextTickFails(
           r.error, ids, initial, rounds, TickTime(startEpochMs, scenario.tickDurationMs, |rounds|), engine.kernel,
           engine.config, near, solvers(|rounds| + 1))
  {
    hide IsRun, IsRound, Reflexive, Stored, OnRoute, Advanced, Commanded, Shows, CollisionDecisionEngine.Valid,
      CollisionDecisionEngine.State, OnSchedule, StopsOnArrival, Decided, AllAtGoal, TickTime, FleetFails, IsStateBefore,
      StateAfter;
    rounds := [];
    var (k, cfg) := (engine.kernel, engine.config);
    ghost var manager := engine.grantManager;
    var store: Store := map[];
    var decisions: seq<FleetDecision> := [];
    var arrived := false;
    ShownInOrder(robots, ids, initial);
    NothingYet(
      ids, initial, k, cfg, near, TickTime(startEpochMs, scenario.tickDurationMs, 0), scenario, startEpochMs, solvers);
    while |decisions| < limit && !arrived
      invariant engine.Valid() && engine.config == cfg && engine.kernel == k
      invariant engine.grantManager == manager || fresh(engine.grantManager)
      invariant |rounds| == |decisions| <= limit && (arrived ==> decisions != [])
      invariant OnSchedule(rounds, scenario, startEpochMs, solvers)
      invariant Decided(rounds, decisions) && StopsOnArrival(rounds, arrived)
      invariant IsRun(ids, initial, rounds, k, cfg, near)
      invariant IsStateBefore(rounds, cfg, |rounds|, engine.State())
      invariant Shows(robots, ids, CommandedBefore(initial, rounds, |rounds|))
      invariant OnRoute(CommandedBefore(initial, rounds, |rounds|))
      invariant Stored(
        store, ids, CommandedBefore(initial, rounds, |rounds|), TickTime(startEpochMs, scenario.tickDurationMs, |rounds|))
      decreases limit - |decisions|
    {
      var tick := |decisions| + 1;
      var nowMs := TickTime(startEpochMs, scenario.tickDurationMs, tick - 1);
      ghost var (vs, state) := (CommandedBefore(initial, rounds, |rounds|), engine.State());
      var ticked := RunTick(engine, robots, ids, vs, store, tick, nowMs, near, solvers(tick));
      if ticked.Raised? {
        assert NextTickFails(ticked.error, ids, initial, rounds, nowMs, k, cfg, near, solvers(tick));
        return Raised(ticked.error), rounds;
      }
      store := ticked.value.1;
      ghost var round := RoundOf(ids, vs, state, solvers(tick), store, nowMs, ticked.value.0);
      arrived := AllArrived(robots, ids, round.commanded);
      RoundKeepsPaths(round, ids, k, cfg, near);
      SameGoals(round.observed, round.commanded);
      RunGrows(ids, initial, rounds, round, k, cfg, near);
      LastState(rounds, round, cfg, engine.State());
      ScheduleGrows(rounds, scenario, startEpochMs, solvers, round);
      ProgressGrows(rounds, decisions, round, arrived);
      decisions := decisions + [ticked.value.0];
      rounds := rounds + [round];
      StoredStays(store, ids, round.commanded, scenario, startEpochMs, tick - 1);
    }
    r := Ok(SimulationResult(|decisions|, arrived, decisions));
  }

  lemma StoredStays(
    store: Store, ids: seq<RobotId>, vs: seq<View>, scenario: ScenarioDefinition, startEpochMs: int, t: nat
  )
    requires Stored(store, ids, vs, TickTime(startEpochMs, scenario.tickDurationMs, t))
    ensures Stored(store, ids, vs, TickTime(startEpochMs, scenario.tickDurationMs, t + 1))
  {
    TimeAdvances(startEpochMs, scenario.tickDurationMs, t);
  }

  /** A whole scenario in logical time. The solver consulted may differ from tick to tick. */
  method RunScenario(
    scenario: ScenarioDefinition, cfg: Config, kernel: Kernel, near: PoseMatch, solvers: nat -> Option<Solver>,
    startEpochMs: int, maximumTicks: Option<int>
  )
    returns (r: Result<SimulationResult>, ghost rounds: seq<Round>)
    requires cfg.Valid() && Sound(kernel) && Reflexive(near)
    ensures r == Raised(InvalidInput) <==> !ValidScenario(scenario, maximumTicks, startEpochMs)
    // The run: its rounds, whether or not it ends with a result, and the tick that ended it if it does not.
    ensures IsRun(IdsOf(scenario.robots), InitialViews(scenario.robots), rounds, kernel, cfg, near)
    ensures OnSchedule(rounds, scenario, startEpochMs, solvers)
    ensures r.Ok? ==> Records(r.value, rounds, maximumTicks.GetOr(scenario.maxTicks))
    ensures r.Raised? && r.error != InvalidInput ==> NextTickFails(
      r.error, IdsOf(scenario.robots), InitialViews(scenario.robots), rounds,
      TickTime(startEpochMs, scenario.tickDurationMs, |rounds|), kernel, cfg, near, solvers(|rounds| + 1))
    ensures r.Raised? && r.error != InvalidInput ==>
      || (r.error == ObjectiveOverflow && !FleetFits(|scenario.robots|, cfg))
      || (r.error == UnsafeResult && SomeDishonest(solvers, maximumTicks.GetOr(scenario.maxTicks)))
    // Safety: robots that start with footprints apart never touch, stopped or moving, and every tick commits.
    ensures StandingApart(kernel, InitialViews(scenario.robots)) ==>
      forall t: nat | t < |rounds| :: ApartRound(rounds[t], kernel)
    ensures forall b: Body, t: Trigonometry |
              ValidBody(b) && Pythagorean(t) && kernel == IdealKernel(b, t)
              && StandingApart(kernel, InitialViews(scenario.robots)) ::
      forall n: nat | n < |rounds| :: NeverTouchingAfter(rounds[n], b, t)
    // Progress.
    ensures r.Ok? ==> Progresses(
      r.value, rounds, InitialViews(scenario.robots), cfg, maximumTicks.GetOr(scenario.maxTicks))
  {
    hide IsRun, Sound, Reflexive, StandingApart, ApartRound, IdsOf, OnRoute, Shows, CollisionDecisionEngine.Valid,
      CollisionDecisionEngine.State, FleetFits, InitialViews, Records, SomeDishonest, TickTime, DistinctRobots, OnSchedule,
      NextTickFails, Progresses, NeverTouchingAfter, IdealKernel, ValidBody, Pythagorean, StrictlyAscending;
    var limit := maximumTicks.GetOr(scenario.maxTicks);
    var ids := IdsOf(scenario.robots);
    ghost var initial := InitialViews(scenario.robots);
    NothingYet(ids, initial, kernel, cfg, near, 0, scenario, startEpochMs, solvers);
    if scenario.robots == [] || !DistinctRobots(scenario.robots) || limit < 1 || startEpochMs < 0 {
      return Raised(InvalidInput), [];
    }
    DefinedRobots(scenario.robots);
    var robots := CreateRobots(scenario.robots, startEpochMs);
    ShownInOrder(robots, ids, initial);
    var engine := new CollisionDecisionEngine(cfg, kernel);
    r, rounds := RunTicks(engine, robots, ids, initial, scenario, near, solvers, startEpochMs, limit);
    if StandingApart(kernel, initial) {
      EveryRoundApart(ids, initial, rounds, kernel, cfg, near);
    }
    forall b: Body, t: Trigonometry | ValidBody(b) && Pythagorean(t) && kernel == IdealKernel(b, t) && StandingApart(kernel, initial)
      ensures forall n: nat | n < |rounds| :: NeverTouchingAfter(rounds[n], b, t)
    {
      EveryStepApart(ids, initial, rounds, b, t, cfg, near);
    }
    if r.Ok? {
      ScheduledRoundsAreLater(rounds, scenario, startEpochMs, solvers);
      RunProgresses(ids, initial, rounds, kernel, cfg, near, r.value, limit);
    } else {
      FailureOf(
        r.error, ids, initial, rounds, TickTime(startEpochMs, scenario.tickDurationMs, |rounds|), kernel, cfg, near,
        solvers, limit);
    }
  }
}
