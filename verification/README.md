# Collision monitor: verified decision core

This project models the decision core of the fleet collision monitor and proves what it promises.
Once per tick the monitor observes every robot, builds two occupied regions per robot (one for
*Pause*, one for *Resume*), finds which pairs of actions would make two robots touch, and commands
every robot to Pause or to Resume one node along its fixed path. Rights of way (*grants*) persist
across ticks so that a robot that has started to clear a conflict is not pre-empted.

`dafny verify dfyconfig.toml` checks the whole project.

## Structure

| module | models | about |
|---|---|---|
| `Basics` | | identifiers, actions, partial assignments, errors, deterministic sorting |
| `NoGoods`, `Search`, `Repair`, `Heuristic` | `heuristic.py` | two-literal no-goods, unit propagation, the greedy and repair passes, `solve` |
| `Geometry` | `geometry.py` | footprints and sweeps as point sets over the reals |
| `Models`, `Conflicts`, `Components` | `models.py`, `config.py`, `conflicts.py` | snapshots, compatibility tables, no-goods, adjacency, breadth-first components |
| `Priority`, `Objective`, `Optimiser`, `RankTies` | `priority.py`, `optimiser.py` | scores, the single-integer objective, validation, CP-SAT as an untrusted oracle, when the rank bonuses break ties |
| `Decomposition` | `conflicts.py` | components decide feasibility and the objective exactly |
| `Fairness`, `GrantRules`, `GrantManagement` | `grants.py` | waiting ages, leases, greedy groups, and the `GrantManager` state machine |
| `TickSafety`, `Proposals`, `TickOutcome`, `TickObjective`, `FleetOptimum`, `Engine` | `engine.py` | one tick: score, propose, preview, review, commit; when it overflows and what it maximises |
| `Simulation`, `ClosedLoop`, `Scenario` | `state_store.py`, `simulator/` | the robot, the state store, and whole runs of simulate, observe, decide, move |

The code that works by mutation keeps that form: the propagation and search loops, the breadth-first
search, the validator, `GrantManager`, `CollisionDecisionEngine`, `SimulatedRobot` and the scenario
loop are methods and classes, each proved against a specification about which the lemmas speak.

## Main results

1. **The search is complete.** The greedy pass without backtracking decides two-literal
   satisfiability, and its answer is the greatest solution in rank order. So `solve` reports progress
   exactly when some safe assignment moves a robot, within a proved number of clause inspections.
2. **Ticks are exact.** A tick commits exactly when the stationary footprints are apart; committed
   actions are then apart; isolated robots move unless stale or at goal; a conflict component moves
   somebody exactly when that is possible; every alarm is raised exactly when its condition holds.
   On valid input a tick fails exactly when some conflict component overflows on the scores of the
   tick or an answer of the solver violates the model it was given.
3. **Grants are exact.** Retained grants are the oldest-first greedy completable set; after a
   committed tick the grant holders among the observed conflict participants are exactly the robots
   told to Resume; leases are bounded over all runs; waiting ages are capped streak lengths.
4. **Whole runs are safe.** If the robots start with footprints apart, every tick commits and the
   commanded sweeps are apart, whatever the solver answers at each tick. For the repository's shapes
   over the reals, no two footprints touch at any point of any step, at any intermediate heading.
5. **Whole runs progress.** With a stale limit of at least one millisecond, a run either brings
   everybody to the goal within one tick more than there are path nodes to reach, or raises the
   unresolvable alarm at some tick. With a smaller limit nobody ever moves. A failed run ends in a
   tick that fails by the condition of result 2.
6. **Decomposition and objective are exact.** The single integer coefficient encodes a three-level
   lexicographic order. Every tick's decisions follow the objective computed from the current scores,
   and where every conflict component gets an optimal answer they maximise the summed final score
   over all fleet-wide safe assignments that keep the retained grants and pause stale and arrived
   robots.

## Findings

- **The documentation is more cautious than the code.** `docs/justification_of_approach.md:415` and
  `docs/justification_of_approach.md:602` say the heuristic may miss progress. It cannot: every
  clause has exactly two literals on distinct robots, so a contradiction-free propagated assignment
  leaves every clause satisfied or untouched. The model follows the code.
- **Two safety nets never act.** After a greedy pass without progress the repair pass of the
  heuristic can find nothing, whatever its candidate limit (`Heuristic.RepairOrPause`); and the
  engine's override of violating components never changes a decision (`Engine.OverrideIsIdle`),
  because such a component is already paused throughout.
- **Objective overflow.** Configuration validation does not rule it out. With an honest solver a tick
  on valid input raises exactly when some conflict component overflows on the scores of the tick
  (`Engine.HonestTickRaisesExactly`), and under one valid configuration every tick with a two-robot
  conflict component does (`Engine.ValidConfigurationCanRaise`), because a scaled throughput reward out
  of range forces overflow in any conflict component (`Engine.LargeRewardRaises`).
  `Objective.FleetFits` is a condition on configuration and fleet size, checkable in advance, under
  which no tick overflows (`TickObjective.FittingTickDoesNotOverflow`).
- **Rank bonuses do not make the optimum unique**, against `docs/justification_of_approach.md:347`. They
  separate all Resume sets of equal size exactly in components of at most three robots
  (`RankTies.RanksSeparateExactly`), where the optimum is unique (`RankTies.SmallOptimumIsUnique`). In
  a ring of four equally scored robots two different Resume sets are both optimal
  (`RankTies.RingHasTwoOptima`).
- **A stale timeout below one millisecond** rounds to a limit of zero. Every robot is then permanently
  stale (`ClosedLoop.ZeroLimitIsStale`) and no run ever moves one (`ClosedLoop.ZeroLimitRunRests`), so
  progress holds if and only if the limit is at least one millisecond (`ClosedLoop.QuietRoundMoves`,
  `ClosedLoop.QuietRunArrivesExactly`).

## Model

| member | source | states |
|---|---|---|
| NoGoods.PropagationIsConfluent | src/collision_monitor/heuristic.py:110-142 | success and result of propagation depend only on the set of clauses, not on their order |
| NoGoods.PropagatedValuesAreForced | src/collision_monitor/heuristic.py:110-142 | every propagated value holds in all solutions that extend the input assignment |
| NoGoods.GreatestIsUnique | src/collision_monitor/heuristic.py:192-217 | the ranking determines the greedy result completely |
| Search.Propagate | src/collision_monitor/heuristic.py:110-142 | succeeds exactly when a clause-closed extension exists, then returns the least one, in at most one scan more than there are unassigned robots |
| Search.TryAssignment | src/collision_monitor/heuristic.py:145-157 | a branch survives exactly when the extended assignment has a clause-closed extension, of which it returns the least |
| Search.GreedyPass | src/collision_monitor/heuristic.py:192-217 | finds an assignment exactly when some solution extends the seed, and then the greatest in rank order; bounded clause visits |
| Search.VisitLimitIsProduct | docs/justification_of_approach.md:470-476 | the visit bound is (2k+1)(k+1)p for k robots and p clauses |
| Repair.PauseRemaining | src/collision_monitor/heuristic.py:219-273 | pausing the robots left, in order and with propagation after each, either leads to the one assignment that this process defines, which is then a solution, or is impossible |
| Repair.TryEscape | src/collision_monitor/heuristic.py:219-273 | an escape robot yields exactly the assignment that Resuming it, propagating and pausing the rest leads to, and none exactly when that ends in a contradiction |
| Heuristic.RepairPass | src/collision_monitor/heuristic.py:219-273 | never raises; it returns what the first candidate that escapes leads to, and nothing exactly when none of the candidates does; anything returned is a safe completion of the hard actions that moves a robot |
| Heuristic.RepairOrPause | src/collision_monitor/heuristic.py:323-389 | after a greedy pass without progress the answer is all Pause when that is safe and infeasible otherwise, for every candidate limit: the repair pass never contributes |
| Heuristic.Solve | src/collision_monitor/heuristic.py:275-389 | feasibility and progress are decided exactly, a feasible result is the best safe completion in rank order, and the errors are exactly malformed calls and overflow |
| Geometry.FootprintInTurningBox | src/collision_monitor/geometry.py:209-224 | for every heading the margin-expanded rectangle lies in the box of the circumscribed radius plus margin |
| Geometry.SweepCoversMotion | src/collision_monitor/geometry.py:176-228 | at every point of a step, whatever the intermediate heading when it changes, the footprint lies in the Resume region |
| Geometry.IdealKernelIsSound | src/collision_monitor/geometry.py:166-249 | the Resume region contains the Pause region and the next footprint, and the conflict test is exact, boundary contact included |
| Conflicts.NoGoodsEncodeCompatibility | src/collision_monitor/conflicts.py:127-153 | the no-goods of a pair all hold exactly when the pair of actions is safe in the table |
| Conflicts.ClausesEncodePairs | src/collision_monitor/heuristic.py:78-98 | an assignment solves the clauses built from a list of pairs exactly when every pair is safe |
| Conflicts.BuildConflictModel | src/collision_monitor/conflicts.py:339-392 | raises exactly on duplicate robots; otherwise every pair is compared once, edges are exactly the pairs with an unsafe combination, components partition the robots by connectivity |
| Components.BuildAdjacency | src/collision_monitor/conflicts.py:281-296 | accepts exactly ordered edges between known robots, and then the graph is the symmetric closure of the edges |
| Components.VisitFrom | src/collision_monitor/conflicts.py:299-325 | one breadth-first search visits a set closed under edges all of whose robots are reachable from the root |
| Components.DecomposeConnectedComponents | src/collision_monitor/conflicts.py:299-325 | sorted parts that partition the robots; two robots share a part exactly when a path of edges joins them; fails exactly on unknown neighbours |
| Decomposition.SafetyDecomposes | src/collision_monitor/conflicts.py:369-392 | a fleet assignment is safe exactly when each component's restriction is safe |
| Decomposition.NoGoodsDecompose | src/collision_monitor/conflicts.py:369-392 | a fleet assignment solves all no-goods exactly when each restriction solves its component's own |
| Decomposition.ObjectiveDecomposes | src/collision_monitor/priority.py:312-320 | the summed score of a Resume set is the sum over components |
| Decomposition.MaximisersCompose | src/collision_monitor/engine.py:239-336 | under any hard actions, uniting maximisers of each component under its own part of them gives a fleet-wide maximiser under all of them |
| Decomposition.MaximiserDecomposes | src/collision_monitor/engine.py:239-336 | conversely a fleet-wide maximiser under hard actions maximises each component under its own part of them |
| Decomposition.EncodedMaximisersCompose | src/collision_monitor/optimiser.py:108-138 | maximising the encoded objective in every component under its hard actions maximises the summed final score of the fleet under all hard actions |
| Priority.UrgencyIsBoundedAndAntitone | src/collision_monitor/priority.py:158-174 | urgency stays in its range, is full at the deadline, zero at the horizon, and never rises with slack |
| Priority.CountIsClearable | src/collision_monitor/priority.py:177-199 | on a sorted list of pairs the entry-by-entry count is the number of distinct robots whose conflict this robot can clear |
| Priority.ClearanceOpportunityCount | src/collision_monitor/priority.py:177-199 | the loop counts the listed pairs that this robot can clear, repeated entries included; on a sorted list these are distinct robots |
| Priority.ClearanceWithinComponent | src/collision_monitor/priority.py:177-199 | that count is at most the component size minus one |
| Priority.ScoringRaisesExactly | src/collision_monitor/priority.py:202-265 | for any list of pairs scoring raises exactly when the count exceeds the component size minus one; otherwise the breakdown is valid and within its bound |
| Priority.ScoringNeverRaises | src/collision_monitor/priority.py:202-265 | on the sorted pairs of its component scoring a member never raises, and its secondary score stays within the per-robot bound |
| Proposals.ScorePriorities | src/collision_monitor/engine.py:195-219 | every observed robot gets the breakdown of its own component |
| Proposals.ScoresShareThroughput | src/collision_monitor/priority.py:268-309 | all secondary scores of a component together stay strictly below the common throughput reward |
| Objective.ObjectiveIsLexicographic | src/collision_monitor/optimiser.py:108-138 | comparing summed coefficients is comparing Resume count, then secondary score, then rank bonus |
| Objective.EncodedOrderRefinesScores | src/collision_monitor/optimiser.py:108-138 | the encoded order never contradicts the order by summed final score |
| RankTies.RanksSeparateExactly | src/collision_monitor/optimiser.py:119-130 | the summed rank bonuses tell apart all different Resume sets of equal size if and only if the component has at most three robots |
| RankTies.SmallOptimumIsUnique | src/collision_monitor/optimiser.py:119-130 | in a component of at most three robots two optimal answers are the same actions |
| RankTies.OptimaAreRatedAlike | src/collision_monitor/optimiser.py:108-138 | any two optimal answers agree in Resume count, total secondary score and total rank bonus |
| RankTies.RingHasTwoOptima | docs/justification_of_approach.md:347 | in a ring of four equally scored robots first and last, and second and third, are two different optimal answers |
| Objective.WithinWorstCase | src/collision_monitor/optimiser.py:108-138 | a component whose worst coefficient fits never overflows |
| Objective.RewardForcesOverflow | src/collision_monitor/optimiser.py:108-138 | a component whose scaled throughput reward exceeds the range always overflows |
| TickObjective.LargeRewardOverflowsTick | src/collision_monitor/optimiser.py:108-138 | a conflict component whose scaled throughput reward is out of range makes the tick overflow, whatever the ages and grants |
| TickObjective.ValidConfigurationCanOverflow | src/collision_monitor/optimiser.py:108-138 | under one concrete valid configuration every usable model with a two-robot conflict component overflows on its computed scores |
| Optimiser.AcceptsSafeCompletions | src/collision_monitor/optimiser.py:160-184 | the validator accepts exactly the complete, pairwise safe assignments that keep the hard actions |
| Optimiser.SolveModel | src/collision_monitor/optimiser.py:300-352 | the solver's answer is returned unchanged when it satisfies the model and rejected exactly when it does not |
| Optimiser.Optimise | src/collision_monitor/optimiser.py:242-373 | consults the solver exactly for small enough components, on the model with the encoded objective; returns its validated answer or asks for the fallback; each of the three errors is raised exactly under its condition |
| Optimiser.OptimalAnswerIsLexicographicallyBest | src/collision_monitor/optimiser.py:313-352 | no safe completion beats an optimal answer in Resume count, then secondary score, then rank bonus |
| Fairness.WaitingAgeIsStreak | src/collision_monitor/grants.py:488-510 | after any run of committed ticks a robot's age is the capped length of its current waiting streak, and ages are kept for exactly the robots last observed |
| GrantRules.ReconcileKeepsLeases | src/collision_monitor/grants.py:217-269 | one tick keeps every lease bounded although robots vanish and reappear, and refreshes observed holders without changing their acquisition tick |
| GrantRules.LeaseAgeBound | src/collision_monitor/grants.py:210-269 | a grant is at most the lease plus the stale limit minus one tick old; an observed one at most the lease |
| GrantRules.GreedyGroupIsUnique | src/collision_monitor/grants.py:271-306 | oldest-first retention has exactly one outcome |
| GrantRules.GreedyGroupCompletes | src/collision_monitor/grants.py:271-359 | the retained holders of a component extend to one common safe completion |
| GrantManagement.GroupHasSafeCompletion | src/collision_monitor/grants.py:308-359 | the feasibility check with neutral priorities answers exactly whether a safe completion Resumes the whole group |
| GrantManagement.RetainOldestFirst | src/collision_monitor/grants.py:271-306 | keeps a holder exactly when it can be completed together with the older ones kept |
| GrantManagement.ValidateOrRepairComponent | src/collision_monitor/grants.py:384-444 | an all-Pause proposal is replaced by a moving safe one exactly when there is one, and is otherwise alarmed; a moving proposal passes unchanged or is rejected as unsafe |
| GrantManagement.GrantManager.Clone | src/collision_monitor/grants.py:185-194 | an independent closed-tick copy of the whole state, refused while a tick is open |
| GrantManagement.GrantManager.RevokeForSafety | src/collision_monitor/grants.py:196-201 | removes exactly the named holders, and only inside a tick |
| GrantManagement.GrantManager.SafeRelevantGrants | src/collision_monitor/grants.py:271-306 | in every component the oldest-first greedy completable set is retained, all other conflicting holders are released, the rest is untouched |
| GrantManagement.GrantManager.AcquireGrants | src/collision_monitor/grants.py:446-486 | acquired grants are the greedy completable set of the newly moving conflict participants in robot order |
| GrantManagement.GrantManager.UpdateFairness | src/collision_monitor/grants.py:488-510 | the aging loop performs one fairness step and remembers the commanded actions |
| GrantManagement.GrantManager.PrepareTick | src/collision_monitor/grants.py:361-382 | opens the next tick with reconciled, exactly retained grants; no retained observed holder is stale or at goal |
| GrantManagement.GrantManager.PreviewTick | src/collision_monitor/grants.py:533-569 | previews every component without changing state for any priorities; raises exactly on a closed tick, mismatched keys, or a component whose proposal is unsafe, whose objective overflows or whose priorities are malformed where they are needed |
| GrantManagement.GrantManager.CommitTick | src/collision_monitor/grants.py:571-597 | closes the tick with acquired grants, aged robots and remembered actions, keeping the invariant |
| TickSafety.SafeIsApart | src/collision_monitor/conflicts.py:232-278 | the compatibility table is safe for an assignment exactly when no two envelopes meet |
| TickSafety.CompletableWhenPausable | src/collision_monitor/grants.py:384-444 | a component has a safe completion at all exactly when pausing everybody is safe |
| TickSafety.PreviewDecides | src/collision_monitor/grants.py:384-444 | after the preview a conflict component moves somebody exactly when some safe assignment does, with all its retained holders |
| TickSafety.RetainedGroupCompletes | src/collision_monitor/grants.py:271-306 | the hard Resume assignments of each component are jointly completable |
| TickSafety.ClashOnlyInPausedComponent | src/collision_monitor/engine.py:481-571 | if decided envelopes still meet, both robots are in one component that is paused throughout |
| Proposals.ProposeComponent | src/collision_monitor/engine.py:221-336 | proposes the validated solver answer if there is one and else the heuristic's best completion; with retained holders Resumed and stale or at-goal robots Paused |
| Proposals.SolveComponents | src/collision_monitor/engine.py:239-336 | one admissible proposal per component and policy actions for isolated robots; fails only by overflow or a dishonest solver |
| TickOutcome.RetainedAreResumed | src/collision_monitor/grants.py:271-306 | every retained holder is decided Resume |
| TickOutcome.OldestHolderIsNotPreempted | src/collision_monitor/grants.py:217-306 | a fresh, unexpired, oldest and completable holder in conflict is decided Resume for all priorities and solver answers |
| TickOutcome.DecisionIsWitness | src/collision_monitor/grants.py:446-486 | the decided assignment itself shows its Resumed robots completable, so acquisition never refuses |
| TickOutcome.CommitTracksResumes | src/collision_monitor/grants.py:446-486 | after a commit observed holders are Resumed and Resumed conflict participants hold grants |
| TickObjective.TickScoresExist | src/collision_monitor/engine.py:195-219 | every model built from valid input has hard actions, retained grants and scores of the tick, also when the tick raises |
| TickObjective.TickScoresAreUnique | src/collision_monitor/engine.py:195-219 | model, time, ages and grants determine the hard actions, retained grants and scores of the tick |
| TickObjective.PreviewByObjective | src/collision_monitor/engine.py:239-336 | after the preview every conflict component acts on its chosen proposal or, if that needlessly pauses it throughout, on the best moving completion |
| TickObjective.OptimalComponentIsDecided | src/collision_monitor/grants.py:384-444 | where the solver's answer is optimal the decided actions are not beaten lexicographically by any completion of the hard actions, and the preview never repairs them |
| FleetOptimum.OptimalTickMaximises | src/collision_monitor/engine.py:239-336 | with an optimal answer for every conflict component the decided actions, isolated robots included, maximise the summed final score over all fleet-safe assignments that keep the hard actions |
| FleetOptimum.DecisionMaximises | src/collision_monitor/engine.py:464-571 | the actions of every decided tick are that fleet-wide maximiser whenever the answers are optimal |
| TickObjective.FittingScoresDoNotOverflow | src/collision_monitor/optimiser.py:108-138 | for a configuration that fits the fleet no component's scored objective overflows |
| TickObjective.FittingTickDoesNotOverflow | src/collision_monitor/optimiser.py:108-138 | nor does any tick on a model of that fleet |
| TickObjective.NeutralOverflowsTick | src/collision_monitor/grants.py:308-359 | a grant check with neutral priorities overflows only in a tick whose scores overflow as well |
| Engine.ValidateGlobalSafety | src/collision_monitor/engine.py:115-158 | reports exactly the pairs whose envelopes meet, and raises exactly when actions and robots do not match |
| Engine.NoViolationsIsApart | src/collision_monitor/engine.py:115-158 | an empty report means exactly that all envelopes are apart |
| Engine.OverrideIsIdle | src/collision_monitor/engine.py:338-349 | pausing the components of violating pairs changes no decision |
| Engine.Review | src/collision_monitor/engine.py:506-549 | the reviewed decision is the planned one, with exact initial and final violations |
| Engine.DecideOn | src/collision_monitor/engine.py:481-571 | safety, one-tick liveness and exact alarms of the reviewed decision |
| Engine.PlanTick | src/collision_monitor/engine.py:195-336 | preparing, scoring, proposing and previewing fail exactly on overflow of the scores of the tick or a rejected answer, and otherwise plan by the objective |
| Engine.RunTick | src/collision_monitor/engine.py:481-571 | review and commit add no failure: the tick raises exactly when its plan does |
| Engine.CollisionDecisionEngine.Decide | src/collision_monitor/engine.py:464-685 | the whole tick: raises on malformed input exactly, and on valid input exactly when the scores of the observed model overflow or an answer is rejected; commits exactly when footprints are apart; exact alarms, nobody pre-empted, actions chosen by the objective of the current scores and fleet-wide optimal when the answers are, exact grant transition, bounded leases, nothing changed unless committed |
| Engine.HonestTickRaisesExactly | src/collision_monitor/engine.py:464-571 | with an honest solver a tick raises if and only if some conflict component overflows on the scores of the tick |
| Engine.LargeRewardRaises | src/collision_monitor/optimiser.py:108-138 | a scaled throughput reward out of range for the size of one conflict component makes the tick raise |
| Engine.ValidConfigurationCanRaise | src/collision_monitor/optimiser.py:108-138 | under one valid configuration every tick on valid input with a two-robot conflict component raises |
| Simulation.SimulatedRobot.AdvanceForTick | src/collision_monitor/simulator/robot.py:66-76 | exactly one path node on Resume and none otherwise, with the goal tick set on arrival |
| Simulation.SimulatedRobot.ReceiveAction | src/collision_monitor/simulator/robot.py:78-85 | remembers the action and counts it, whether or not the robot has arrived, and changes nothing else |
| ClosedLoop.ObservedIsTrue | src/collision_monitor/state_store.py:116-158 | each robot's snapshot carries its true pose, goal status and next node |
| ClosedLoop.AdvanceStandsApart | src/collision_monitor/simulator/robot.py:66-76 | after a step through separated sweeps the robots stand apart again |
| ClosedLoop.RoundIsExact | src/collision_monitor/simulator/scenario.py:414-436 | a tick commits exactly when the real robots stand apart, and then their next moves are apart |
| ClosedLoop.RunStaysApart | src/collision_monitor/simulator/scenario.py:414-436 | from separated footprints every round of every run commits, stands apart and moves apart |
| ClosedLoop.MovingApartNeverTouches | src/collision_monitor/geometry.py:176-228 | robots whose commanded sweeps are apart have disjoint footprints at every point of the step, at every admissible intermediate heading |
| ClosedLoop.RunNeverTouches | src/collision_monitor/simulator/scenario.py:414-436 | from separated footprints that holds in every round of every run |
| ClosedLoop.ZeroLimitIsStale | src/collision_monitor/engine.py:98-113 | with a stale limit of zero every robot received no later than now is stale |
| ClosedLoop.QuietRoundMoves | src/collision_monitor/engine.py:98-113 | a tick without the unresolvable alarm in which somebody has not arrived moves a robot if and only if the stale limit is at least one millisecond |
| ClosedLoop.QuietRunProgresses | src/collision_monitor/simulator/scenario.py:414-439 | with such a limit, while no alarm is raised, every round uses up a path node, which bounds the length of the run |
| ClosedLoop.ZeroLimitRunRests | src/collision_monitor/simulator/scenario.py:414-439 | with a stale limit of zero no robot ever leaves its start |
| ClosedLoop.QuietRunArrivesExactly | src/collision_monitor/simulator/scenario.py:414-439 | a quiet run longer than its path nodes has brought everybody to the goal if and only if the stale limit is at least one millisecond |
| Scenario.PublishAll | src/collision_monitor/state_store.py:80-110 | after the publications of a tick the store mirrors the fleet, including robots that published at their goal earlier |
| Scenario.ExchangeTick | src/collision_monitor/simulator/scenario.py:164-192 | one fresh action per robot; fails exactly for a negative epoch and otherwise only with the cause the tick has on the stored states |
| Scenario.FleetFailureCause | src/collision_monitor/simulator/scenario.py:164-192 | a failing tick of the loop overflows for a configuration that does not fit the fleet, or meets a dishonest solver |
| Scenario.RunTicks | src/collision_monitor/simulator/scenario.py:414-439 | the loop stops at the first tick by which all have arrived or at the limit, or at a tick that fails in the state the earlier ticks left |
| Scenario.RunScenario | src/collision_monitor/simulator/scenario.py:391-464 | a run is safe from separated footprints, at every point of every step for the repository's shapes; it arrives in bounded time or alarms when the stale limit is positive, and never completes when it is zero and there is a node to reach; it raises on invalid scenarios exactly, and otherwise only in a tick that overflows or rejects an answer in the state the run had reached |

## Modelling choices

- Robot identifiers are natural numbers; only their order is used. Pause is 0 and Resume is 1, and
  assignments map robots to actions directly.
- Python exceptions are the `Error` values of `Result`.
- Regions are sets of points. `Geometry.Kernel` carries the three geometry operations, `Sound` says
  what the engine relies on, and `IdealKernelIsSound` proves it for the repository's shapes over the
  reals, with cosine and sine constrained only by the Pythagorean identity.
- The solver is a function about which nothing is assumed. `Honest` (it satisfies the model it is
  given) and `OptimalAnswer` appear only where a result needs them.
- Grant ages and waiting ages count committed ticks, because an uncommitted tick discards its clone.
- The comparison of poses within a tolerance is a relation of which only reflexivity is used.
- The state store clock runs in whole milliseconds; in the loop the tick epoch is the timestamp of the
  states just published.
- A state older than the stored one is refused by the store and fails the simulated tick; the loop
  never produces one.

## Left out

- CP-SAT search, time limits, solver statuses and metrics: foreign code behind the oracle.
- Shapely polygons, buffering by arcs, floating-point rounding and `make_valid`: regions are exact
  sets of real points, the margin an exact disc.
- Injected candidate-pair generators, conflict-model builders and solver factories: the defaults are modelled.
- Decision sources beyond the heuristic's own, reason codes, traces, release and acquisition logs and
  diagnostic metadata: they do not influence decisions; the alarm codes are modelled.
- `finalise_tick`, the service, transports, logging, retries and the RabbitMQ simulator: plumbing. The
  RabbitMQ simulator may miss an action, so the closed-loop results are about the in-memory transport.
- Environment parsing and validation of configuration, scenario files and messages: `Config.Valid`
  and `ValidScenario` carry the constraints the decisions need.
- Real-time pacing and the end-of-run summary counters of a scenario: they do not feed back.
- Engine.CollisionDecisionEngine.Decide: when one component overflows and the answer for another is
  rejected in the same tick, which of the two errors is raised is not stated; with an honest solver
  there is only one.
- Goal completion or fairness beyond the results above: the code does not guarantee them.
