/** Whole runs: simulate, observe, decide, move. */
module ClosedLoop {
  import opened Basics
  import opened Conflicts
  import opened Decomposition
  import opened Engine
  import opened Geometry
  import opened GrantRules
  import opened Models
  import opened Optimiser
  import opened Simulation
  import opened TickOutcome
  import opened TickSafety

  // ---------------------------------------------------------------- regions occupied by the fleet

  predicate OnRoute(vs: seq<View>) {
    forall i | 0 <= i < |vs| :: vs[i].path != []
  }

  ghost function Standing(k: Kernel, v: View): Region
    requires v.path != []
  {
    k.footprint(v.path[0])
  }

  /** What the robot occupies during its next step. */
  ghost function Moving(k: Kernel, v: View): Region
    requires v.path != []
  {
    if v.Moves() then k.sweep(v.path[0], v.path[1]) else k.footprint(v.path[0])
  }

  ghost predicate StandingApart(k: Kernel, vs: seq<View>)
    requires OnRoute(vs)
  {
    forall i, j | 0 <= i < j < |vs| :: !Overlap(Standing(k, vs[i]), Standing(k, vs[j]))
  }

  ghost predicate MovingApart(k: Kernel, vs: seq<View>)
    requires OnRoute(vs)
  {
    forall i, j | 0 <= i < j < |vs| :: !Overlap(Moving(k, vs[i]), Moving(k, vs[j]))
  }

  /** Every robot takes its step. */
  function Advanced(vs: seq<View>): (ws: seq<View>)
    ensures |ws| == |vs| && forall i | 0 <= i < |vs| :: ws[i] == vs[i].Advance()
  {
    seq(|vs|, i requires 0 <= i < |vs| => vs[i].Advance())
  }

  /** After a step whose swept regions are apart, the robots stand apart again. */
  lemma AdvanceStandsApart(k: Kernel, vs: seq<View>)
    requires Sound(k) && OnRoute(vs) && MovingApart(k, vs)
    ensures OnRoute(Advanced(vs)) && StandingApart(k, Advanced(vs))
  {
    var ws := Advanced(vs);
    forall i | 0 <= i < |vs|
      ensures ws[i].path != [] && Standing(k, ws[i]) <= Moving(k, vs[i])
    {
      assert ws[i] == vs[i].Advance();
    }
    forall i, j | 0 <= i < j < |ws|
      ensures !Overlap(Standing(k, ws[i]), Standing(k, ws[j]))
    {
      assert !Overlap(Moving(k, vs[i]), Moving(k, vs[j]));
    }
  }

  // ---------------------------------------------------------------- between two stops

  /** Where a robot may be during its next step: anywhere on the segment between the two nodes, at the fixed
      heading if the heading does not change and at any heading if it does. */
  ghost predicate OnStep(t: Trigonometry, v: View, w: real, moving: Pose)
    requires v.path != []
  {
    if v.Moves() then
      && 0.0 <= w <= 1.0
      && Centre(moving) == Mix(Centre(v.path[0]), Centre(v.path[1]), w)
      && (SameHeading(t, v.path[0], v.path[1]) ==> SameHeading(t, moving, v.path[0]))
    else
      moving == v.path[0]
  }

  /** No two robots touch, wherever on their next steps they are. */
  ghost predicate NeverTouching(b: Body, t: Trigonometry, vs: seq<View>)
    requires OnRoute(vs)
  {
    forall i, j, w, u, p, q | 0 <= i < j < |vs| && OnStep(t, vs[i], w, p) && OnStep(t, vs[j], u, q) ::
      !Overlap(Footprint(b, t, p), Footprint(b, t, q))
  }

  lemma StepWithinMoving(b: Body, t: Trigonometry, v: View, w: real, moving: Pose)
    requires ValidBody(b) && Pythagorean(t) && v.path != [] && OnStep(t, v, w, moving)
    ensures Footprint(b, t, moving) <= Moving(IdealKernel(b, t), v)
  {
    hide ValidBody, Pythagorean, Footprint, Sweep, SameHeading, Mix;
    if v.Moves() {
      SweepCoversMotion(b, t, v.path[0], v.path[1], w, moving);
    }
  }

  /** Separated sweeps of the repository's shapes keep the robots apart throughout the step. */
  lemma MovingApartNeverTouches(b: Body, t: Trigonometry, vs: seq<View>)
    requires ValidBody(b) && Pythagorean(t) && OnRoute(vs) && MovingApart(IdealKernel(b, t), vs)
    ensures NeverTouching(b, t, vs)
  {
    hide ValidBody, Pythagorean, Footprint, OnStep, Moving, IdealKernel;
    forall i, j, w, u, p, q | 0 <= i < j < |vs| && OnStep(t, vs[i], w, p) && OnStep(t, vs[j], u, q)
      ensures !Overlap(Footprint(b, t, p), Footprint(b, t, q))
    {
      StepWithinMoving(b, t, vs[i], w, p);
      StepWithinMoving(b, t, vs[j], u, q);
      assert !Overlap(Moving(IdealKernel(b, t), vs[i]), Moving(IdealKernel(b, t), vs[j]));
    }
  }

  // ---------------------------------------------------------------- the store mirrors the fleet

  /** The stored state is the robot's true current state. */
  predicate StoredTruly(store: Store, id: RobotId, v: View) {
    && id in store && v.path != []
    && store[id].state.id == id
    && store[id].state.pose == v.path[0]
    && store[id].state.path == if v.AtGoal() then [] else v.path
  }

  predicate StoreMirrors(store: Store, ids: seq<RobotId>, vs: seq<View>) {
    && |ids| == |vs| && store.Keys == Elems(ids)
    && forall i | 0 <= i < |ids| :: StoredTruly(store, ids[i], vs[i])
  }

  lemma SnapshotIsTrue(store: Store, id: RobotId, v: View, nowMs: int, cfg: Config, near: PoseMatch)
    requires StoredTruly(store, id, v) && Reflexive(near)
    ensures var s := ToSnapshot(store[id], nowMs, cfg, near);
            && s.id == id && s.pose == v.path[0] && s.atGoal == v.AtGoal() && s.receivedAtMs >= 0
            && (!v.AtGoal() ==> s.nextPose == v.path[1])
  {
  }

  /** The engine observes exactly the fleet: every robot's snapshot carries its true pose and next node. */
  lemma ObservedIsTrue(
    m: ConflictModel, k: Kernel, store: Store, ids: seq<RobotId>, vs: seq<View>, nowMs: int, cfg: Config,
    near: PoseMatch, i: nat
  )
    requires StoreMirrors(store, ids, vs) && Reflexive(near) && i < |ids|
    requires Observed(m, k, TakeSnapshots(store, nowMs, cfg, near), nowMs, cfg)
    ensures ids[i] in m.snapshots
    ensures var s := m.snapshots[ids[i]];
            s.pose == vs[i].path[0] && s.atGoal == vs[i].AtGoal() && (!vs[i].AtGoal() ==> s.nextPose == vs[i].path[1])
  {
    hide WellFormedModel, Faithful, TakeSnapshots;
    var snapshots := TakeSnapshots(store, nowMs, cfg, near);
    assert StoredTruly(store, ids[i], vs[i]);
    SnapshotIsTrue(store, ids[i], vs[i], nowMs, cfg, near);
    var s := ToSnapshot(store[ids[i]], nowMs, cfg, near);
    SnapshotTaken(store, nowMs, cfg, near, ids[i]);
    var n :| 0 <= n < |snapshots| && snapshots[n] == s;
    var derived := Derived(snapshots, nowMs, cfg);
    assert derived[n] in derived && derived[n].id == ids[i];
  }

  lemma ObservedKeys(
    m: ConflictModel, k: Kernel, store: Store, ids: seq<RobotId>, vs: seq<View>, nowMs: int, cfg: Config, near: PoseMatch
  )
    requires StoreMirrors(store, ids, vs) && Reflexive(near)
    requires Observed(m, k, TakeSnapshots(store, nowMs, cfg, near), nowMs, cfg)
    ensures m.snapshots.Keys == Elems(ids)
  {
    hide Observed, TakeSnapshots, StoreMirrors;
    MirrorIsOnRoute(store, ids, vs);
    forall i: nat | i < |ids|
      ensures ids[i] in m.snapshots
    {
      ObservedIsTrue(m, k, store, ids, vs, nowMs, cfg, near, i);
    }
    forall r | r in m.snapshots
      ensures r in Elems(ids)
    {
      var s := ObservedSource(m, k, TakeSnapshots(store, nowMs, cfg, near), nowMs, cfg, r);
      SnapshotSource(store, nowMs, cfg, near, s);
      var q :| q in store && s == ToSnapshot(store[q], nowMs, cfg, near);
      StoredId(store, ids, vs, q);
    }
  }

  /** The snapshot an observed robot comes from. */
  lemma ObservedSource(
    m: ConflictModel, k: Kernel, snapshots: seq<Snapshot>, nowMs: int, cfg: Config, r: RobotId
  )
    returns (s: Snapshot)
    requires Observed(m, k, snapshots, nowMs, cfg) && r in m.snapshots
    ensures s in snapshots && s.id == r
  {
    hide WellFormedModel, Faithful;
    var derived := Derived(snapshots, nowMs, cfg);
    assert m.snapshots[r] in derived;
    var n :| 0 <= n < |derived| && derived[n] == m.snapshots[r];
    s := snapshots[n];
  }

  lemma StoredId(store: Store, ids: seq<RobotId>, vs: seq<View>, r: RobotId)
    requires StoreMirrors(store, ids, vs) && r in store
    ensures store[r].state.id == r
  {
    assert r in Elems(ids);
    var i :| 0 <= i < |ids| && ids[i] == r;
    assert StoredTruly(store, ids[i], vs[i]);
  }

  lemma MirrorIsOnRoute(store: Store, ids: seq<RobotId>, vs: seq<View>)
    requires StoreMirrors(store, ids, vs)
    ensures |ids| == |vs| && OnRoute(vs) && store.Keys == Elems(ids)
  {
    forall i | 0 <= i < |vs|
      ensures vs[i].path != []
    {
      assert StoredTruly(store, ids[i], vs[i]);
    }
  }

  // ---------------------------------------------------------------- one tick of the loop

  /** Every robot short of its goal takes the action decided for it. */
  predicate IsDelivery(ids: seq<RobotId>, vs: seq<View>, ws: seq<View>, decisions: Assignment) {
    && |ids| == |vs| == |ws|
    && forall i | 0 <= i < |vs| ::
         ids[i] in decisions && ws[i].path == vs[i].path && ws[i].action == vs[i].Receive(decisions[ids[i]]).action
  }

  /** One tick of the loop: the engine's state and solver, what the store held, what the fleet was, and what was
      decided and delivered. */
  datatype Round = Round(
    state: EngineState,
    solver: Option<Solver>,
    store: Store,
    nowMs: int,
    observed: seq<View>,
    decision: FleetDecision,
    commanded: seq<View>
  )

  /** States of robots short of their goal have just been received. */
  predicate JustReceived(store: Store, ids: seq<RobotId>, vs: seq<View>, nowMs: int) {
    |ids| == |vs| && forall i | 0 <= i < |ids| && !vs[i].AtGoal() :: ids[i] in store && store[ids[i]].receivedMs == nowMs
  }

  ghost predicate IsRound(round: Round, ids: seq<RobotId>, k: Kernel, cfg: Config, near: PoseMatch) {
    var (vs, d) := (round.observed, round.decision);
    && StoreMirrors(round.store, ids, vs) && JustReceived(round.store, ids, vs, round.nowMs)
    && Observed(d.model, k, TakeSnapshots(round.store, round.nowMs, cfg, near), round.nowMs, cfg)
    && SafeTick(d, k) && LiveTick(d) && ExactAlarms(d, k)
    && cfg.Valid() && DecidedIn(d, round.nowMs, cfg, round.state, round.solver)
    && IsDelivery(ids, vs, round.commanded, d.decisions)
  }

  lemma SafeTickFacts(d: FleetDecision, k: Kernel)
    requires SafeTick(d, k)
    ensures d.committed <==> FootprintsApart(d.model, k)
    ensures d.committed ==> AllApart(d.model, k, d.decisions)
    ensures d.decisions.Keys == d.model.snapshots.Keys
    ensures forall r | r in d.model.snapshots && d.model.Unavailable(r) :: d.decisions[r] == Pause
  {
  }

  /** The robots stand apart exactly when the observed footprints do. */
  lemma FootprintsAreStanding(
    m: ConflictModel, k: Kernel, store: Store, ids: seq<RobotId>, vs: seq<View>, nowMs: int, cfg: Config, near: PoseMatch
  )
    requires StrictlyAscending(ids) && Reflexive(near) && StoreMirrors(store, ids, vs)
    requires Observed(m, k, TakeSnapshots(store, nowMs, cfg, near), nowMs, cfg)
    ensures |ids| == |vs| && OnRoute(vs) && (FootprintsApart(m, k) <==> StandingApart(k, vs))
  {
    hide Observed, StoreMirrors, Reflexive, StandingApart, FootprintsApart, Clash, Overlap;
    MirrorIsOnRoute(store, ids, vs);
    ObservedKeys(m, k, store, ids, vs, nowMs, cfg, near);
    forall i, j | 0 <= i < j < |ids|
      ensures SameContact(m, k, ids, vs, i, j)
    {
      ObservedIsTrue(m, k, store, ids, vs, nowMs, cfg, near, i);
      ObservedIsTrue(m, k, store, ids, vs, nowMs, cfg, near, j);
      ContactOf(m, k, ids, vs, i, j);
    }
    ApartByRows(m, k, ids, vs);
  }

  /** Two observed footprints meet exactly when the robots' true footprints do. */
  ghost predicate SameContact(m: ConflictModel, k: Kernel, ids: seq<RobotId>, vs: seq<View>, i: nat, j: nat)
    requires i < |ids| == |vs| && j < |ids| && OnRoute(vs)
  {
    Clash(m, k, PauseAll(m.snapshots.Keys), ids[i], ids[j]) <==> Overlap(Standing(k, vs[i]), Standing(k, vs[j]))
  }

  lemma ContactOf(m: ConflictModel, k: Kernel, ids: seq<RobotId>, vs: seq<View>, i: nat, j: nat)
    requires i < |ids| == |vs| && j < |ids| && OnRoute(vs)
    requires ids[i] in m.snapshots && m.snapshots[ids[i]].pose == vs[i].path[0]
    requires ids[j] in m.snapshots && m.snapshots[ids[j]].pose == vs[j].path[0]
    ensures SameContact(m, k, ids, vs, i, j)
  {
    hide Overlap;
  }

  lemma ApartByRows(m: ConflictModel, k: Kernel, ids: seq<RobotId>, vs: seq<View>)
    requires StrictlyAscending(ids) && |ids| == |vs| && OnRoute(vs) && Elems(ids) == m.snapshots.Keys
    requires forall i, j | 0 <= i < j < |ids| :: SameContact(m, k, ids, vs, i, j)
    ensures FootprintsApart(m, k) <==> StandingApart(k, vs)
  {
    hide Clash, Overlap, Standing;
    if StandingApart(k, vs) {
      forall r, q | r in m.snapshots && q in m.snapshots && r < q
        ensures !Clash(m, k, PauseAll(m.snapshots.Keys), r, q)
      {
        RowOf(ids, m.snapshots.Keys, r, q);
        var i, j :| 0 <= i < j < |ids| && ids[i] == r && ids[j] == q;
        assert SameContact(m, k, ids, vs, i, j);
      }
    }
    if FootprintsApart(m, k) {
      forall i, j | 0 <= i < j < |ids|
        ensures !Overlap(Standing(k, vs[i]), Standing(k, vs[j]))
      {
        assert ids[i] in Elems(ids) && ids[j] in Elems(ids);
        assert SameContact(m, k, ids, vs, i, j);
      }
    }
  }

  /** A delivered action occupies the envelope that was decided. */
  lemma DeliveredEnvelope(m: ConflictModel, k: Kernel, id: RobotId, v: View, w: View, action: Action)
    requires id in m.snapshots && v.path != [] && w.path == v.path && w.action == v.Receive(action).action
    requires var s := m.snapshots[id];
             s.pose == v.path[0] && s.atGoal == v.AtGoal() && (!v.AtGoal() ==> s.nextPose == v.path[1])
    requires m.Unavailable(id) ==> action == Pause
    ensures Moving(k, w) == Envelope(k, m.snapshots[id], action)
  {
  }

  /** Actions whose envelopes are apart move the robots through regions that are apart. */
  lemma DecidedMovesApart(
    d: FleetDecision, k: Kernel, store: Store, ids: seq<RobotId>, vs: seq<View>, ws: seq<View>, nowMs: int,
    cfg: Config, near: PoseMatch
  )
    requires StrictlyAscending(ids) && Reflexive(near) && StoreMirrors(store, ids, vs)
    requires Observed(d.model, k, TakeSnapshots(store, nowMs, cfg, near), nowMs, cfg)
    requires AllApart(d.model, k, d.decisions)
    requires forall r | r in d.model.snapshots && d.model.Unavailable(r) :: r in d.decisions && d.decisions[r] == Pause
    requires IsDelivery(ids, vs, ws, d.decisions)
    ensures OnRoute(ws) && MovingApart(k, ws)
  {
    hide Observed, StoreMirrors, Reflexive, Overlap, Moving, Envelope;
    MirrorIsOnRoute(store, ids, vs);
    assert OnRoute(ws);
    forall i, j | 0 <= i < j < |ws|
      ensures !Overlap(Moving(k, ws[i]), Moving(k, ws[j]))
    {
      ObservedIsTrue(d.model, k, store, ids, vs, nowMs, cfg, near, i);
      ObservedIsTrue(d.model, k, store, ids, vs, nowMs, cfg, near, j);
      DeliveredEnvelope(d.model, k, ids[i], vs[i], ws[i], d.decisions[ids[i]]);
      DeliveredEnvelope(d.model, k, ids[j], vs[j], ws[j], d.decisions[ids[j]]);
      assert !Clash(d.model, k, d.decisions, ids[i], ids[j]);
    }
  }

  /** A tick commits exactly when the robots stand apart, and then their next moves stay apart. */
  lemma RoundIsExact(round: Round, ids: seq<RobotId>, k: Kernel, cfg: Config, near: PoseMatch)
    requires StrictlyAscending(ids) && Reflexive(near) && IsRound(round, ids, k, cfg, near)
    ensures OnRoute(round.observed) && OnRoute(round.commanded)
    ensures round.decision.committed <==> StandingApart(k, round.observed)
    ensures round.decision.committed ==> MovingApart(k, round.commanded)
  {
    hide Observed, StoreMirrors, Reflexive, SafeTick, LiveTick, ExactAlarms, StandingApart, MovingApart, FootprintsApart,
      AllApart;
    var (vs, ws, d) := (round.observed, round.commanded, round.decision);
    SafeTickFacts(d, k);
    FootprintsAreStanding(d.model, k, round.store, ids, vs, round.nowMs, cfg, near);
    assert forall i | 0 <= i < |ws| :: ws[i].path == vs[i].path;
    if d.committed {
      DecidedMovesApart(d, k, round.store, ids, vs, ws, round.nowMs, cfg, near);
    }
  }

  // ---------------------------------------------------------------- whole runs

  /** The fleet as commanded before round `t`. */
  function CommandedBefore(initial: seq<View>, rounds: seq<Round>, t: nat): seq<View>
    requires t <= |rounds|
  {
    if t == 0 then initial else rounds[t - 1].commanded
  }

  /** The engine's state before round `t`: nothing at first, and then what the previous round passed on. */
  ghost predicate IsStateBefore(rounds: seq<Round>, cfg: Config, t: nat, state: EngineState)
    requires t <= |rounds|
  {
    if t == 0 then
      state == EngineState(map[], map[], 0)
    else
      cfg.Valid() && StateAfter(rounds[t - 1].decision, rounds[t - 1].nowMs, cfg, rounds[t - 1].state, state)
  }

  /** Each round observes the fleet after it has taken the previously commanded step, and decides in the
      engine's state after the previous round. */
  ghost predicate IsRun(
    ids: seq<RobotId>, initial: seq<View>, rounds: seq<Round>, k: Kernel, cfg: Config, near: PoseMatch
  ) {
    forall t | 0 <= t < |rounds| ::
      && IsRound(rounds[t], ids, k, cfg, near)
      && rounds[t].observed == Advanced(CommandedBefore(initial, rounds, t))
      && IsStateBefore(rounds, cfg, t, rounds[t].state)
  }

  lemma RoundAt(
    ids: seq<RobotId>, initial: seq<View>, rounds: seq<Round>, k: Kernel, cfg: Config, near: PoseMatch, t: nat
  )
    requires IsRun(ids, initial, rounds, k, cfg, near) && t < |rounds|
    ensures IsRound(rounds[t], ids, k, cfg, near)
    ensures rounds[t].observed == Advanced(CommandedBefore(initial, rounds, t))
  {
  }

  /** The tick commits, and the robots are apart both while observed and while moving afterwards. */
  ghost predicate ApartRound(round: Round, k: Kernel) {
    && round.decision.committed
    && OnRoute(round.observed) && StandingApart(k, round.observed)
    && OnRoute(round.commanded) && MovingApart(k, round.commanded)
  }

  /** Closed-loop safety: whatever the solver answers at each tick, robots that start at rest with
      footprints apart never touch, at a stop or in motion, and no tick is ever left uncommitted. */
  lemma {:induction false} RunStaysApart(
    ids: seq<RobotId>, initial: seq<View>, rounds: seq<Round>, k: Kernel, cfg: Config, near: PoseMatch, t: nat
  )
    requires Sound(k) && StrictlyAscending(ids) && Reflexive(near)
    requires OnRoute(initial) && StandingApart(k, initial) && (forall v | v in initial :: v.action == Pause)
    requires IsRun(ids, initial, rounds, k, cfg, near) && t < |rounds|
    ensures ApartRound(rounds[t], k)
  {
    hide Sound, Reflexive, StandingApart, MovingApart, IsRound, IsRun, StrictlyAscending, OnRoute;
    RoundAt(ids, initial, rounds, k, cfg, near, t);
    if t == 0 {
      RestingFleetStays(initial);
    } else {
      RunStaysApart(ids, initial, rounds, k, cfg, near, t - 1);
      AdvanceStandsApart(k, rounds[t - 1].commanded);
    }
    RoundIsExact(rounds[t], ids, k, cfg, near);
  }

  /** With the repository's shapes, robots that start at rest with footprints apart never touch at any moment of
      any step of any run. */
  lemma RunNeverTouches(
    ids: seq<RobotId>, initial: seq<View>, rounds: seq<Round>, b: Body, t: Trigonometry, cfg: Config, near: PoseMatch,
    n: nat
  )
    requires ValidBody(b) && Pythagorean(t) && StrictlyAscending(ids) && Reflexive(near)
    requires OnRoute(initial) && StandingApart(IdealKernel(b, t), initial)
    requires forall v | v in initial :: v.action == Pause
    requires IsRun(ids, initial, rounds, IdealKernel(b, t), cfg, near) && n < |rounds|
    ensures OnRoute(rounds[n].commanded) && NeverTouching(b, t, rounds[n].commanded)
  {
    hide ValidBody, Pythagorean, Reflexive, IsRun, IdealKernel, StandingApart, NeverTouching, StrictlyAscending;
    IdealKernelIsSound(b, t);
    RunStaysApart(ids, initial, rounds, IdealKernel(b, t), cfg, near, n);
    MovingApartNeverTouches(b, t, rounds[n].commanded);
  }

  lemma RestingFleetStays(vs: seq<View>)
    requires forall v | v in vs :: v.action == Pause
    ensures Advanced(vs) == vs
  {
  }

  // ---------------------------------------------------------------- progress of whole runs

  predicate AllAtGoal(vs: seq<View>) {
    forall i | 0 <= i < |vs| :: vs[i].AtGoal()
  }

  /** Path nodes the fleet has yet to reach. */
  function Remaining(vs: seq<View>): nat {
    if vs == [] then 0 else Max(|vs[0].path| - 1, 0) + Remaining(vs[1..])
  }

  lemma {:induction false} StepShrinks(vs: seq<View>)
    ensures Remaining(Advanced(vs)) <= Remaining(vs)
    ensures (exists i :: 0 <= i < |vs| && vs[i].Moves()) ==> Remaining(Advanced(vs)) < Remaining(vs)
  {
    if vs != [] {
      StepShrinks(vs[1..]);
      assert Advanced(vs)[1..] == Advanced(vs[1..]);
      if i :| 0 <= i < |vs| && vs[i].Moves() && i > 0 {
        assert vs[1..][i - 1].Moves();
      }
    }
  }

  lemma {:induction false} SamePathsRemain(vs: seq<View>, ws: seq<View>)
    requires |vs| == |ws| && forall i | 0 <= i < |vs| :: ws[i].path == vs[i].path
    ensures Remaining(ws) == Remaining(vs)
  {
    if vs != [] {
      SamePathsRemain(vs[1..], ws[1..]);
    }
  }

  lemma {:induction false} ArrivedRemains(vs: seq<View>)
    ensures AllAtGoal(vs) <==> Remaining(vs) == 0
  {
    if vs != [] {
      ArrivedRemains(vs[1..]);
      if AllAtGoal(vs) {
        assert forall i | 0 <= i < |vs[1..]| :: vs[1..][i] == vs[i + 1];
      }
      if Remaining(vs) == 0 {
        assert forall i | 0 < i < |vs| :: vs[i] == vs[1..][i - 1];
      }
    }
  }

  lemma ObservedIsAvailable(
    m: ConflictModel, k: Kernel, store: Store, ids: seq<RobotId>, vs: seq<View>, nowMs: int, cfg: Config,
    near: PoseMatch, i: nat
  )
    requires StoreMirrors(store, ids, vs) && JustReceived(store, ids, vs, nowMs) && Reflexive(near)
    requires i < |ids| == |vs| && !vs[i].AtGoal()
    requires Observed(m, k, TakeSnapshots(store, nowMs, cfg, near), nowMs, cfg)
    requires cfg.Valid() && cfg.StaleLimitMs() >= 1 && nowMs >= 0
    ensures ids[i] in m.snapshots && !m.Unavailable(ids[i])
  {
    hide WellFormedModel, Faithful, TakeSnapshots;
    var snapshots := TakeSnapshots(store, nowMs, cfg, near);
    assert StoredTruly(store, ids[i], vs[i]);
    SnapshotIsTrue(store, ids[i], vs[i], nowMs, cfg, near);
    var s := ToSnapshot(store[ids[i]], nowMs, cfg, near);
    SnapshotTaken(store, nowMs, cfg, near, ids[i]);
    var n :| 0 <= n < |snapshots| && snapshots[n] == s;
    var derived := Derived(snapshots, nowMs, cfg);
    assert derived[n] in derived && derived[n].id == ids[i];
  }

  /** Some robot of the observed fleet, in a tick without the liveness alarm, is told to Resume. */
  lemma SomebodyResumes(d: FleetDecision, k: Kernel, r: RobotId) returns (mover: RobotId)
    requires WellFormedModel(d.model) && SafeTick(d, k) && LiveTick(d) && ExactAlarms(d, k)
    requires r in d.model.snapshots && !d.model.Unavailable(r)
    requires UnresolvableWithPauseResume !in d.alarms
    ensures mover in d.decisions && d.decisions[mover] == Resume
  {
    var m := d.model;
    WellFormedIsUsable(m);
    WellFormedIsolation(m);
    var n := FindComponent(m, r);
    hide WellFormedModel, Usable, IsComponent, IsConflictComponent, SafeTick, ProgressPossible, FootprintsApart;
    if m.HasConflict(r) {
      assert !Unresolvable(m, m.components[n]);
      assert MovesWhenPossible(d, m.components[n]);
      var part := Restrict(d.decisions, Elems(m.components[n]));
      mover :| mover in part && part[mover] == Resume;
    } else {
      assert FollowsPolicy(m, d.decisions, r);
      mover := r;
    }
  }

  lemma CommandedMoves(
    m: ConflictModel, ids: seq<RobotId>, vs: seq<View>, ws: seq<View>, decisions: Assignment, j: nat
  )
    requires IsDelivery(ids, vs, ws, decisions) && j < |ids| && decisions[ids[j]] == Resume
    requires ids[j] in m.snapshots && !m.Unavailable(ids[j]) && m.snapshots[ids[j]].atGoal == vs[j].AtGoal()
    ensures ws[j].Moves()
  {
  }

  /** A robot told to Resume is short of its goal, so it moves. */
  lemma ResumedMoves(round: Round, ids: seq<RobotId>, k: Kernel, cfg: Config, near: PoseMatch, mover: RobotId)
    requires Reflexive(near) && IsRound(round, ids, k, cfg, near)
    requires mover in round.decision.decisions && round.decision.decisions[mover] == Resume
    ensures exists i :: 0 <= i < |round.commanded| && round.commanded[i].Moves()
  {
    hide StoreMirrors, Reflexive, SafeTick, LiveTick, ExactAlarms, Observed, JustReceived, IsDelivery, FootprintsApart,
      AllApart, OnRoute;
    var (vs, ws, d) := (round.observed, round.commanded, round.decision);
    SafeTickFacts(d, k);
    MirrorIsOnRoute(round.store, ids, vs);
    ObservedKeys(d.model, k, round.store, ids, vs, round.nowMs, cfg, near);
    assert mover in Elems(ids);
    var j :| 0 <= j < |ids| && ids[j] == mover;
    ObservedIsTrue(d.model, k, round.store, ids, vs, round.nowMs, cfg, near, j);
    CommandedMoves(d.model, ids, vs, ws, d.decisions, j);
    assert |ws| == |vs| by {
      RoundKeepsPaths(round, ids, k, cfg, near);
    }
  }

  /** With a stale limit of zero milliseconds every observed robot is stale. */
  lemma ZeroLimitIsStale(
    m: ConflictModel, k: Kernel, snapshots: seq<Snapshot>, nowMs: int, cfg: Config, r: RobotId
  )
    requires Observed(m, k, snapshots, nowMs, cfg) && cfg.StaleLimitMs() <= 0 && r in m.snapshots
    requires forall s | s in snapshots :: s.receivedAtMs <= nowMs
    ensures m.snapshots[r].stale
  {
    hide WellFormedModel, Faithful;
    var derived := Derived(snapshots, nowMs, cfg);
    assert m.snapshots[r] in derived;
    var n :| 0 <= n < |derived| && derived[n] == m.snapshots[r];
    assert snapshots[n] in snapshots;
  }

  lemma ReceivedInThePast(store: Store, nowMs: int, cfg: Config, near: PoseMatch)
    requires nowMs >= 0
    ensures forall s | s in TakeSnapshots(store, nowMs, cfg, near) :: s.receivedAtMs <= nowMs
  {
    hide TakeSnapshots;
    forall s | s in TakeSnapshots(store, nowMs, cfg, near)
      ensures s.receivedAtMs <= nowMs
    {
      SnapshotSource(store, nowMs, cfg, near, s);
      var r :| r in store && s == ToSnapshot(store[r], nowMs, cfg, near);
    }
  }

  lemma DeliveredAt(ids: seq<RobotId>, vs: seq<View>, ws: seq<View>, decisions: Assignment, i: nat)
    requires IsDelivery(ids, vs, ws, decisions) && i < |ids|
    ensures i < |vs| == |ws| && ids[i] in decisions
    ensures ws[i].path == vs[i].path && ws[i].action == vs[i].Receive(decisions[ids[i]]).action
  {
  }

  /** So no round moves anybody. */
  lemma ZeroLimitRoundRests(round: Round, ids: seq<RobotId>, k: Kernel, cfg: Config, near: PoseMatch)
    requires Reflexive(near) && IsRound(round, ids, k, cfg, near) && cfg.StaleLimitMs() <= 0 && round.nowMs >= 0
    ensures forall i | 0 <= i < |round.commanded| :: !round.commanded[i].Moves()
  {
    hide StoreMirrors, Reflexive, SafeTick, LiveTick, ExactAlarms, Observed, JustReceived, IsDelivery, OnRoute,
      FootprintsApart, AllApart;
    var (vs, ws, d) := (round.observed, round.commanded, round.decision);
    SafeTickFacts(d, k);
    MirrorIsOnRoute(round.store, ids, vs);
    RoundKeepsPaths(round, ids, k, cfg, near);
    ObservedKeys(d.model, k, round.store, ids, vs, round.nowMs, cfg, near);
    ReceivedInThePast(round.store, round.nowMs, cfg, near);
    forall i: nat | i < |ws|
      ensures !ws[i].Moves()
    {
      assert ids[i] in Elems(ids);
      ZeroLimitIsStale(
        d.model, k, TakeSnapshots(round.store, round.nowMs, cfg, near), round.nowMs, cfg, ids[i]);
      DeliveredAt(ids, vs, ws, d.decisions, i);
    }
  }

  lemma LiveRoundMoves(round: Round, ids: seq<RobotId>, k: Kernel, cfg: Config, near: PoseMatch)
    requires Reflexive(near) && IsRound(round, ids, k, cfg, near)
    requires cfg.Valid() && cfg.StaleLimitMs() >= 1 && round.nowMs >= 0
    requires UnresolvableWithPauseResume !in round.decision.alarms && !AllAtGoal(round.observed)
    ensures exists i :: 0 <= i < |round.commanded| && round.commanded[i].Moves()
  {
    hide StoreMirrors, Reflexive, SafeTick, LiveTick, ExactAlarms, WellFormedModel, Faithful, Indexes, JustReceived;
    var (vs, d) := (round.observed, round.decision);
    MirrorIsOnRoute(round.store, ids, vs);
    var i :| 0 <= i < |vs| && !vs[i].AtGoal();
    ObservedIsAvailable(d.model, k, round.store, ids, vs, round.nowMs, cfg, near, i);
    var mover := SomebodyResumes(d, k, ids[i]);
    ResumedMoves(round, ids, k, cfg, near, mover);
  }

  /** A tick that raises no liveness alarm before everybody has arrived moves somebody exactly when the stale
      limit is at least one millisecond. */
  lemma QuietRoundMoves(round: Round, ids: seq<RobotId>, k: Kernel, cfg: Config, near: PoseMatch)
    requires Reflexive(near) && IsRound(round, ids, k, cfg, near) && cfg.Valid() && round.nowMs >= 0
    requires UnresolvableWithPauseResume !in round.decision.alarms && !AllAtGoal(round.observed)
    ensures (exists i :: 0 <= i < |round.commanded| && round.commanded[i].Moves()) <==> cfg.StaleLimitMs() >= 1
  {
    hide IsRound, Reflexive;
    if cfg.StaleLimitMs() >= 1 {
      LiveRoundMoves(round, ids, k, cfg, near);
    } else {
      ZeroLimitRoundRests(round, ids, k, cfg, near);
    }
  }

  lemma RoundKeepsPaths(round: Round, ids: seq<RobotId>, k: Kernel, cfg: Config, near: PoseMatch)
    requires IsRound(round, ids, k, cfg, near)
    ensures |round.commanded| == |round.observed|
    ensures forall i | 0 <= i < |round.observed| :: round.commanded[i].path == round.observed[i].path
  {
  }

  /** Between two rounds, the fleet has moved on, and it was not finished before. */
  lemma QuietStep(round: Round, ids: seq<RobotId>, k: Kernel, cfg: Config, near: PoseMatch)
    requires Reflexive(near) && IsRound(round, ids, k, cfg, near)
    requires cfg.Valid() && cfg.StaleLimitMs() >= 1 && round.nowMs >= 0
    requires UnresolvableWithPauseResume !in round.decision.alarms && !AllAtGoal(Advanced(round.commanded))
    ensures !AllAtGoal(round.observed)
    ensures Remaining(Advanced(round.commanded)) < Remaining(round.observed)
  {
    hide Reflexive, IsRound;
    var (vs, ws) := (round.observed, round.commanded);
    RoundKeepsPaths(round, ids, k, cfg, near);
    assert !AllAtGoal(vs) by {
      var i :| 0 <= i < |ws| && !Advanced(ws)[i].AtGoal();
      assert ws[i].path == vs[i].path;
    }
    QuietRoundMoves(round, ids, k, cfg, near);
    StepShrinks(ws);
    SamePathsRemain(vs, ws);
  }

  /** No earlier round raised the liveness alarm. */
  predicate QuietBefore(rounds: seq<Round>, t: nat)
    requires t <= |rounds|
  {
    forall u | 0 <= u < t :: rounds[u].nowMs >= 0 && UnresolvableWithPauseResume !in rounds[u].decision.alarms
  }

  /** While no tick raises the liveness alarm, every round uses up a path node until all have arrived, provided
      the stale limit is at least one millisecond. */
  lemma {:induction false} QuietRunProgresses(
    ids: seq<RobotId>, initial: seq<View>, rounds: seq<Round>, k: Kernel, cfg: Config, near: PoseMatch, t: nat
  )
    requires Reflexive(near) && cfg.Valid()
    requires IsRun(ids, initial, rounds, k, cfg, near) && t < |rounds| && QuietBefore(rounds, t)
    requires !AllAtGoal(rounds[t].observed)
    ensures cfg.StaleLimitMs() >= 1 ==> t < Remaining(rounds[t].observed) + t <= Remaining(initial)
  {
    hide Reflexive, IsRound, IsRun;
    RoundAt(ids, initial, rounds, k, cfg, near, t);
    ArrivedRemains(rounds[t].observed);
    if t == 0 {
      StepShrinks(initial);
    } else if cfg.StaleLimitMs() >= 1 {
      RoundAt(ids, initial, rounds, k, cfg, near, t - 1);
      QuietStep(rounds[t - 1], ids, k, cfg, near);
      QuietRunProgresses(ids, initial, rounds, k, cfg, near, t - 1);
    }
  }

  /** Unmoved robots keep their paths. */
  lemma RestKeepsPaths(vs: seq<View>)
    requires forall i | 0 <= i < |vs| :: !vs[i].Moves()
    ensures forall i | 0 <= i < |vs| :: Advanced(vs)[i].path == vs[i].path
  {
  }

  /** With a stale limit of zero milliseconds a fleet that starts at rest never moves. */
  lemma {:induction false} ZeroLimitRunRests(
    ids: seq<RobotId>, initial: seq<View>, rounds: seq<Round>, k: Kernel, cfg: Config, near: PoseMatch, t: nat
  )
    requires Reflexive(near) && cfg.StaleLimitMs() <= 0 && (forall v | v in initial :: v.action == Pause)
    requires IsRun(ids, initial, rounds, k, cfg, near) && t < |rounds|
    requires forall u | 0 <= u < t :: rounds[u].nowMs >= 0
    ensures |rounds[t].observed| == |initial|
    ensures forall i | 0 <= i < |initial| :: rounds[t].observed[i].path == initial[i].path
  {
    hide Reflexive, IsRound, IsRun;
    RoundAt(ids, initial, rounds, k, cfg, near, t);
    if t == 0 {
      RestingFleetStays(initial);
    } else {
      ZeroLimitRunRests(ids, initial, rounds, k, cfg, near, t - 1);
      RoundAt(ids, initial, rounds, k, cfg, near, t - 1);
      ZeroLimitRoundRests(rounds[t - 1], ids, k, cfg, near);
      RoundKeepsPaths(rounds[t - 1], ids, k, cfg, near);
      RestKeepsPaths(rounds[t - 1].commanded);
    }
  }

  /** A fleet that starts at rest short of its goals, in a run with more rounds than it has path nodes left and
      without the liveness alarm, arrives exactly when the stale limit is at least one millisecond. */
  lemma QuietRunArrivesExactly(
    ids: seq<RobotId>, initial: seq<View>, rounds: seq<Round>, k: Kernel, cfg: Config, near: PoseMatch
  )
    requires Reflexive(near) && cfg.Valid() && (forall v | v in initial :: v.action == Pause)
    requires IsRun(ids, initial, rounds, k, cfg, near) && 0 < Remaining(initial) < |rounds|
    requires QuietBefore(rounds, |rounds| - 1)
    ensures AllAtGoal(rounds[|rounds| - 1].observed) <==> cfg.StaleLimitMs() >= 1
  {
    hide Reflexive, IsRun, AllAtGoal, Remaining;
    var last := |rounds| - 1;
    if cfg.StaleLimitMs() >= 1 {
      if !AllAtGoal(rounds[last].observed) {
        QuietRunProgresses(ids, initial, rounds, k, cfg, near, last);
      }
    } else {
      ZeroLimitRunRests(ids, initial, rounds, k, cfg, near, last);
      SamePathsRemain(initial, rounds[last].observed);
      ArrivedRemains(rounds[last].observed);
    }
  }
}
