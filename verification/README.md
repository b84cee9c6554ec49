# GMLM combat core in Dafny

This project models the core of GMLM, a Unity mecha battler written in
C#. It covers four parts:

- **The behaviour-tree runtime.** This covers the Sequence, Selector,
  Parallel and UtilitySelector composites, the UtilityScorer decorator and
  its four score-aggregation strategies, the string-keyed blackboard, the
  tree executor and the node context. It also covers the fluent
  BehaviorTreeBuilder.
- **The game-side mecha.** This covers spawning, damage, energy, dashing,
  cooldowns and movement. It also covers the body-assist dead-band
  controller from the animation component.
- **The combat AI actions and their utilities.** The actions are target
  update, approach, attack, maintain-range strafing, evade toggle and
  evade dash. The utilities are the projectile sensor, the intercept and
  closest-approach predictions, the dash window, and the projectile
  itself.
- **The SecureCodec value wrapper.** It stores a value XOR-encrypted in
  four 32-bit lanes next to a salted mirror. It re-keys the lanes on
  every read and raises a tamper flag when a lane no longer matches its
  mirror. The int, bool and double lane codecs are modelled with it.

Unity's per-frame world is modelled explicitly:

- A scene is a value.
- A frame's elapsed time is a parameter.
- Positions and velocities are vectors of reals.
- The square-root and signed-angle services are parameters constrained
  by their defining property: `IsSqrt(sqrt)` says `sqrt(x)` is the
  non-negative root of every non-negative `x`.

The modules follow the program:

| module | source |
|---|---|
| `Numeric`, `Geometry` | the `Mathf` and `Vector2`/`Vector3` operations the code uses |
| `Aggregation` | the four `*AggregationStrategy` classes |
| `BehaviorTree` | `Sequence`, `Selector`, `Parallel`, `UtilitySelector`, `UtilityScorer` |
| `Blackboard`, `Executor` | `Blackboard`, `BehaviorTreeExecutor`, `NodeContext` |
| `Builder` | `BehaviorTreeBuilder` |
| `Mecha`, `World` | `Mecha`, and the scene objects and transforms it is given |
| `BodyAssist` | the body-assist controller of `MechaAnimation` |
| `Sensor` | `MechaProjectileSensor` |
| `Prediction` | `PredictionUtils` |
| `DashUtils` | `DashUtils` |
| `Projectile` | `Projectile` |
| `Targeting` | `UpdateTargetAction`, `MoveToTargetAction`, `AttackAction` |
| `Strafe` | `MaintainRangeStrafeAction` |
| `Evade` | `EvadeToggleAction`, `EvadeDashAction` |
| `Bits`, `Secure`, `Codecs` | `Secure<T>`, `IntCodec`, `BoolCodec`, `DoubleCodec` |

## Model

| member | source | states |
|---|---|---|
| Aggregation.SeqMin | Assets/Scripts/AI/Runtime/Utility/MinAggregationStrategy.cs:15 | LINQ Min of a non-empty list is one of its elements and no element is smaller |
| Aggregation.SeqMax | Assets/Scripts/AI/Runtime/Utility/MaxAggregationStrategy.cs:15 | LINQ Max of a non-empty list is one of its elements and no element is larger |
| Aggregation.AverageBetweenMinMax | Assets/Scripts/AI/Runtime/Utility/AverageAggregationStrategy.cs:12-16 | the average of a non-empty list lies between its minimum and its maximum |
| Aggregation.AverageUnit | Assets/Scripts/AI/Runtime/Utility/AverageAggregationStrategy.cs:12-16 | scores in [0,1] average to a value in [0,1], the range IScoreAggregationStrategy documents |
| Aggregation.AverageOrderFree | Assets/Scripts/AI/Runtime/Utility/AverageAggregationStrategy.cs:12-16 | the average depends only on the multiset of scores, not their order |
| Aggregation.MinMaxUnit | Assets/Scripts/AI/Runtime/Utility/MinAggregationStrategy.cs:12-16 | Min and Max strategies map unit scores (and the empty list) into [0,1] |
| Aggregation.ProductUnit | Assets/Scripts/AI/Runtime/Utility/MultiplyAggregationStrategy.cs:15 | the fold from 1 of unit scores is in [0,1] and at most every single score |
| Aggregation.ProductZero | Assets/Scripts/AI/Runtime/Utility/MultiplyAggregationStrategy.cs:15 | one zero score makes the whole product zero |
| Aggregation.MultiplySingle | Assets/Scripts/AI/Runtime/Utility/MultiplyAggregationStrategy.cs:12-16 | the product strategy on one score returns that score |
| Aggregation.MultiplyProperties | Assets/Scripts/AI/Runtime/Utility/MultiplyAggregationStrategy.cs:12-16 | the product strategy is in [0,1] on unit scores, below each score, and 0 when any score is 0 |
| BehaviorTree.ShortCircuit | Assets/Scripts/AI/Runtime/Composites/Sequence.cs:10-21 | the composite returns the first child status different from the pass value (or the pass value), and exactly the children up to that one execute |
| BehaviorTree.SequenceSuccessIff | Assets/Scripts/AI/Runtime/Composites/Sequence.cs:10-21 | a Sequence succeeds if and only if every child succeeds |
| BehaviorTree.SelectorFailureIff | Assets/Scripts/AI/Runtime/Composites/Selector.cs:10-21 | a Selector fails if and only if every child fails |
| BehaviorTree.ShortCircuitStops | Assets/Scripts/AI/Runtime/Composites/Selector.cs:12-18 | an early return carries the last executed child's status, every earlier child returned the pass value, and no later child executes |
| BehaviorTree.StatusComesFromExecutedChild | Assets/Scripts/AI/Runtime/Composites/Sequence.cs:12-18 | a Sequence is Running only if an executed child was; a Selector succeeds only if an executed child did |
| BehaviorTree.EmptyComposites | Assets/Scripts/AI/Runtime/Composites/Sequence.cs:20 | with no children a Sequence succeeds and a Selector fails without executing anything; RequireAll succeeds and RequireOne fails |
| BehaviorTree.ParallelOf | Assets/Scripts/AI/Runtime/Composites/Parallel.cs:24-26 | every child executes, in list order, whatever the others return |
| BehaviorTree.ParallelOutcome | Assets/Scripts/AI/Runtime/Composites/Parallel.cs:22-44 | Parallel succeeds if and only if its policy holds, is Running if and only if the policy fails and some child runs, and fails otherwise |
| BehaviorTree.ParallelAgreesWithSequence | Assets/Scripts/AI/Runtime/Composites/Parallel.cs:33-36 | RequireAll succeeds exactly when a Sequence over the same children would; a successful Selector implies a successful RequireOne |
| BehaviorTree.BestIndex | Assets/Scripts/AI/Runtime/Composites/UtilitySelector.cs:13-25 | the first element of a stable descending sort: a maximal score with every earlier score strictly smaller |
| BehaviorTree.BestIndexUnique | Assets/Scripts/AI/Runtime/Composites/UtilitySelector.cs:16-25 | the index the stable sort puts first is the only one that is maximal with all earlier scores strictly smaller |
| BehaviorTree.UtilitySelectorRunsBest | Assets/Scripts/AI/Runtime/Composites/UtilitySelector.cs:11-31 | no options fail without running anything; otherwise exactly the highest-scoring option (earliest on ties) runs and its status is returned |
| BehaviorTree.ScoredPassesThrough | Assets/Scripts/AI/Runtime/Decorators/UtilityScorer.cs:57-60 | a scorer executes its child and returns the child's result unchanged |
| BehaviorTree.EvalComposite | Assets/Scripts/AI/Runtime/Composites/Parallel.cs:22-26 | each composite's tick is its combinator applied to its children's ticks |
| BehaviorTree.TypeName | Assets/Scripts/AI/Runtime/Decorators/UtilityScorer.cs:23 | a node's type name is never empty |
| BehaviorTree.MakeScorer | Assets/Scripts/AI/Runtime/Decorators/UtilityScorer.cs:21-26 | the scorer keeps child, list and aggregation; a non-empty name is kept and a null or empty one is replaced by a non-empty type name |
| BehaviorTree.AddConsideration | Assets/Scripts/AI/Runtime/Decorators/UtilityScorer.cs:52-55 | appends the score at the end of a present list and fails on a null list |
| BehaviorTree.GetScoreMatchesStrategy | Assets/Scripts/AI/Runtime/Decorators/UtilityScorer.cs:28-50 | a null list scores 0; otherwise the score equals the stand-alone strategy of the scorer's aggregation type |
| BehaviorTree.GetScoreUnit | Assets/Scripts/AI/Runtime/Decorators/UtilityScorer.cs:28-50 | unit consideration scores give a score in [0,1] under every aggregation |
| Blackboard.Default | Assets/Scripts/AI/Runtime/Core/Blackboard.cs:17 | default(T) is null exactly for reference types and an instance of T otherwise |
| Blackboard.GetValue | Assets/Scripts/AI/Runtime/Core/Blackboard.cs:11-18 | the result is the stored value or default(T), and is always something a T-typed caller can receive |
| Blackboard.SetValue | Assets/Scripts/AI/Runtime/Core/Blackboard.cs:20-23 | the key now holds the value, every other key is unchanged, and the key set grows by at most this key |
| Blackboard.GetAfterSet | Assets/Scripts/AI/Runtime/Core/Blackboard.cs:11-23 | reading back a value written at its own type returns it |
| Blackboard.GetDefaults | Assets/Scripts/AI/Runtime/Core/Blackboard.cs:13-17 | a missing key or a value of another type reads as default(T); a stored T reads as itself |
| Blackboard.SetOverwrites | Assets/Scripts/AI/Runtime/Core/Blackboard.cs:22 | writing a value of another type replaces the old one, so the old type now reads default(T) |
| Blackboard.SetFrame | Assets/Scripts/AI/Runtime/Core/Blackboard.cs:20-23 | a write leaves every other key's reads unchanged |
| Blackboard.SetSetSame | Assets/Scripts/AI/Runtime/Core/Blackboard.cs:22 | two writes to one key equal the second write alone |
| Blackboard.KeyedAgree | Assets/Scripts/AI/Runtime/Core/Blackboard.cs:26-34 | the BlackboardKey overloads are the string overloads on the key's name, and round-trip at the key's type |
| Blackboard.ConvenienceTyped | Assets/Scripts/AI/Runtime/Core/Blackboard.cs:37-52 | a stored game object reads back through GetGameObject, while GetVector3 yields the zero vector and GetTransform null |
| Executor.NewExecutor | Assets/Scripts/AI/Runtime/Core/BehaviorTreeExecutor.cs:16-19 | a new executor holds its root and is not running |
| Executor.ExecuteAsync | Assets/Scripts/AI/Runtime/Core/BehaviorTreeExecutor.cs:21-37 | a null tree or root fails without running; otherwise IsRunning is true during the root's execution and false after it, even when the root throws, and the outcome is the root's status or its exception |
| Executor.NeverRunningBetweenCalls | Assets/Scripts/AI/Runtime/Core/BehaviorTreeExecutor.cs:28-36 | after any sequence of calls, faulting or not, IsRunning is false |
| Executor.IdOrDefault | Assets/Scripts/AI/Runtime/Core/NodeContext.cs:20 | only a null id is replaced by the type name; any given id, empty included, is kept |
| Executor.ContextOf | Assets/Scripts/AI/Runtime/Core/NodeContext.cs:17-23 | the blackboard-only context has no children and no child |
| Executor.ContextWithChildren | Assets/Scripts/AI/Runtime/Core/NodeContext.cs:25-31 | a null list gives no children; otherwise the children are the list and the child is its first element, or none for an empty list |
| Executor.ContextWithChild | Assets/Scripts/AI/Runtime/Core/NodeContext.cs:33-39 | a null child gives no children; otherwise the children are exactly that child |
| Executor.ContextConstructorsAgree | Assets/Scripts/AI/Runtime/Core/NodeContext.cs:17-39 | the single-child constructor equals the list constructor on a one-element list; every constructor's child is its first child |
| Builder.Append | Assets/Scripts/Game/AI/BehaviorTreeBuilder.cs:44-51 | a null item is skipped; anything else goes at the end |
| Builder.AppendAllKeepsPresent | Assets/Scripts/Game/AI/BehaviorTreeBuilder.cs:56-63 | the params Add appends exactly the non-null items, in order |
| Builder.Add | Assets/Scripts/Game/AI/BehaviorTreeBuilder.cs:44-51 | a builder adds a non-null node at the end, ignores null, and keeps its kind |
| Builder.AddMany | Assets/Scripts/Game/AI/BehaviorTreeBuilder.cs:56-63 | adding a list appends its non-null nodes in order |
| Builder.Build | Assets/Scripts/Game/AI/BehaviorTreeBuilder.cs:74-109 | each builder builds the composite of its kind (and policy) over exactly its children |
| Builder.AddScorer | Assets/Scripts/Game/AI/BehaviorTreeBuilder.cs:119-126 | a non-null scorer goes at the end; null is ignored |
| Builder.AddScorers | Assets/Scripts/Game/AI/BehaviorTreeBuilder.cs:128-135 | adding a list appends its non-null scorers in order |
| Builder.BuildFromScratch | Assets/Scripts/Game/AI/BehaviorTreeBuilder.cs:12-25 | a fresh builder fed a list builds a composite over exactly the list's non-null nodes |
| Builder.UtilityBuildFromScratch | Assets/Scripts/Game/AI/BehaviorTreeBuilder.cs:115-139 | a fresh utility builder fed a list builds a UtilitySelector over exactly the list's non-null scorers, in order, and one fed only nulls builds a selector that fails without running anything |
| Builder.SingleAddsEqualMany | Assets/Scripts/Game/AI/BehaviorTreeBuilder.cs:44-63 | adding nodes one at a time builds the same as adding them all at once |
| Mecha.Spawn | Assets/Scripts/Game/Mecha.cs:48-102 | a freshly placed mecha is alive, at full energy and not dashing |
| Mecha.InitializeStats | Assets/Scripts/Game/Mecha.cs:207-213 | max HP is at least 1 and HP is full; move speed is non-negative; valid arguments are kept as given; nothing else changes |
| Mecha.TakeDamage | Assets/Scripts/Game/Mecha.cs:215-223 | a dead mecha ignores damage; damage never heals; HP stays in [0, maxHp]; an in-range non-negative amount is subtracted exactly; a killing blow disables the object |
| Mecha.DamageMonotone | Assets/Scripts/Game/Mecha.cs:215-223 | any series of hits never raises HP, and a dead mecha is unchanged by any series |
| Mecha.SpendEnergy | Assets/Scripts/Game/Mecha.cs:336-343 | succeeds exactly when the energy covers max(0, amount); on failure nothing changes; on success the amount is deducted and the regen delay restarts |
| Mecha.AddEnergy | Assets/Scripts/Game/Mecha.cs:345-348 | energy stays within [0, maxEnergy], an in-range refill adds exactly max(0, amount), and nothing else changes |
| Mecha.SpendThenAdd | Assets/Scripts/Game/Mecha.cs:336-348 | spending and then refunding the same amount restores the energy |
| Mecha.TryDash | Assets/Scripts/Game/Mecha.cs:350-374 | a failed dash changes nothing; success needs a non-zero flat direction and CanDash; success starts the dash along the unit direction, with the distance, cooldown and cost applied |
| Mecha.DashStep | Assets/Scripts/Game/Mecha.cs:129-152 | a dash with distance left keeps dashing; its remaining distance drops by the frame's dash travel, floored at zero, and the mecha moves along the dash direction by exactly the distance deducted, keeping its height, with nothing else changed; a dash with none left ends; no dash means no change |
| Mecha.Cooldowns | Assets/Scripts/Game/Mecha.cs:155-166 | energy is frozen while the regen delay runs; it never regenerates past the maximum and never falls |
| Mecha.UpdateDashRemaining | Assets/Scripts/Game/Mecha.cs:129-152 | a frame never makes the remaining dash distance negative and never increases it |
| Mecha.DashEndsOnlyWhenSpent | Assets/Scripts/Game/Mecha.cs:131-151 | a dash ends only on a frame that starts with no distance left |
| Mecha.UpdateEnergy | Assets/Scripts/Game/Mecha.cs:124-185 | a frame raises energy only after the regen delay and below the maximum, and never pushes it past the maximum |
| Mecha.UpdateDisablesDead | Assets/Scripts/Game/Mecha.cs:168-174 | a mecha with no HP is disabled by its next frame |
| Mecha.RampSpeed | Assets/Scripts/Game/Mecha.cs:249-251 | with a non-negative rate the speed moves toward max(0, moveSpeed) without overshooting it; a negative rate, which the serialized fields allow, moves it by the rate's full size, downwards when it already equals the target |
| Numeric.MoveTowards | Assets/Scripts/Game/Mecha.cs:251 | Mathf.MoveTowards reaches the target when it is within the step; otherwise it moves by the step's size, never past the target for a non-negative step; since Mathf.Sign(0) is +1, a negative step at an equal target moves down |
| Mecha.MoveTowardsPoint | Assets/Scripts/Game/Mecha.cs:240-260 | a dashing mecha reports success without moving; a failed move changes nothing; otherwise it steps along the normalised flat direction at the ramped speed |
| Mecha.MoveInDirection | Assets/Scripts/Game/Mecha.cs:262-281 | a dashing mecha reports success without moving; only an exactly zero flat direction fails, and a failure changes nothing |
| Mecha.DashOverridesMovement | Assets/Scripts/Game/Mecha.cs:240-264 | while dashing, neither voluntary move changes the mecha |
| Mecha.TryAttack | Assets/Scripts/Game/Mecha.cs:225-238 | every non-null weapon is tried exactly once, in list order, null slots are skipped, and the result is true if and only if some weapon fired |
| Mecha.FindClosestEnemy | Assets/Scripts/Game/Mecha.cs:22-37 | None exactly when no live enemy of another team is registered; otherwise an eligible entry no eligible entry is strictly closer to, and the first such in iteration order |
| World.ResolveTransform | Assets/Scripts/AI/Runtime/Core/Blackboard.cs:38 | a transform resolves exactly when the key holds a transform handle of an object in the scene |
| World.ResolveGameObject | Assets/Scripts/AI/Runtime/Core/Blackboard.cs:37 | a game object resolves exactly when the key holds a game-object handle of an object in the scene |
| World.Replace | Assets/Scripts/Game/Mecha.cs:254 | writing back a moved mecha changes only that object |
| World.LongestRangeIsMax | Assets/Scripts/Game/AI/Actions/MoveToTargetAction.cs:39-48 | the longest-range scan returns 0 or some weapon's range, and no non-null weapon's range exceeds it |
| Targeting.NewRetargeter | Assets/Scripts/Game/AI/Actions/UpdateTargetAction.cs:20-32 | the hysteresis distance is clamped at 0 and the keys are kept |
| Targeting.RetargetHysteresis | Assets/Scripts/Game/AI/Actions/UpdateTargetAction.cs:76-88 | the result is the current or the best target; with no current target it is the best; switching requires bestD2 + h*h < currentD2, and keeping requires the opposite |
| Targeting.RetargetStable | Assets/Scripts/Game/AI/Actions/UpdateTargetAction.cs:76-88 | a second pass over the same distances keeps the target the first pass chose |
| Targeting.ClosestUnique | Assets/Scripts/Game/Mecha.cs:22-37 | the first of the nearest enemies is unique |
| Targeting.UpdateTarget | Assets/Scripts/Game/AI/Actions/UpdateTargetAction.cs:34-90 | never Running; fails, changing nothing, exactly when self is missing or a zero team has no mecha; on success stores the team; with no enemy the target is cleared; otherwise the hysteresis rule decides between the live current target and the nearest enemy; no other key changes |
| Targeting.ChosenFrame | Assets/Scripts/Game/AI/Actions/UpdateTargetAction.cs:42-54 | storing the team first does not change which target the step picks |
| Targeting.ChooseTarget | Assets/Scripts/Game/AI/Actions/UpdateTargetAction.cs:54-89 | a dead current target is dropped, no eligible enemy clears the target, and the hysteresis rule picks between the live current target and the first nearest enemy; only the target key changes |
| Targeting.NewApproach | Assets/Scripts/Game/AI/Actions/MoveToTargetAction.cs:13-19 | the stop distance is clamped at 0 and the keys are kept |
| Targeting.StopDistanceCoversWeapons | Assets/Scripts/Game/AI/Actions/MoveToTargetAction.cs:35-50 | the stop distance is at least the configured one and every weapon's range, and is one of them |
| Targeting.MaintainEps | Assets/Scripts/Game/AI/Actions/MoveToTargetAction.cs:51 | the arrival margin is the larger of 0.1 and 5% of the stop distance |
| Targeting.MoveToTargetOutcome | Assets/Scripts/Game/AI/Actions/MoveToTargetAction.cs:21-64 | fails without change when an end is missing or self is no mecha; succeeds without change exactly when the flat distance is within the stop distance less the margin; otherwise moves self toward the flattened target and is Running |
| Targeting.ArrivedStaysPut | Assets/Scripts/Game/AI/Actions/MoveToTargetAction.cs:52-55 | a target closer than the stop distance by the margin is never approached, whatever the weapons |
| Targeting.NewAttacker | Assets/Scripts/Game/AI/Actions/AttackAction.cs:14-20 | the considered range is clamped at 0 and the keys are kept |
| Targeting.AimIsCurrentDirection | Assets/Scripts/Game/AI/Actions/AttackAction.cs:62-75 | the aim exists exactly when the flat offset's squared length exceeds 1e-6, and is then the unit vector toward the target's current position; nothing is led |
| Targeting.Outcomes | Assets/Scripts/Game/AI/Actions/AttackAction.cs:78-86 | one slot per weapon: empty for a null weapon, otherwise that weapon's own attack result |
| Targeting.Attack | Assets/Scripts/Game/AI/Actions/AttackAction.cs:22-90 | never Success; fails without aiming or firing exactly when an end is missing, self is no mecha, the target is dead or it is out of range; otherwise aims at the target's current position, tries every non-null weapon once in order, and is Running |
| Targeting.InRangeIff | Assets/Scripts/Game/AI/Actions/AttackAction.cs:56-60 | with a positive limit the attack proceeds if and only if the squared 3D distance is at most (limit + 0.25) squared |
| BodyAssist.DefaultRig | Assets/Scripts/Game/MechaAnimation.cs:14-31 | the serialized defaults enable the assist, keep the exit fraction at or below the enter fraction and use a positive delay |
| BodyAssist.MinLimit | Assets/Scripts/Game/MechaAnimation.cs:160-166 | the tightest yaw limit over the parts allowed to aim: positive exactly when some part may aim, at most each allowed part's limit, otherwise 0 |
| BodyAssist.Thresholds | Assets/Scripts/Game/MechaAnimation.cs:174-176 | 0 <= exit <= enter <= the tightest limit; enter is the clamped enter fraction of it, and exit is the clamped exit fraction unless that would exceed enter |
| BodyAssist.FractionsOf | Assets/Scripts/Game/MechaAnimation.cs:174-175 | unit fractions of a positive limit lie within it and keep their order |
| BodyAssist.StepTransitions | Assets/Scripts/Game/MechaAnimation.cs:178-201 | the assist engages exactly when off, above enter and the timer has run out; disengages exactly when on and below exit; re-arms the timer whenever it is left or turned off at or below enter |
| BodyAssist.DeadBandHolds | Assets/Scripts/Game/MechaAnimation.cs:178-201 | an angle between the exit and enter thresholds never changes the assist flag |
| BodyAssist.HeldUntilTimerRunsOut | Assets/Scripts/Game/MechaAnimation.cs:181-188 | an angle held above enter for less time than the timer holds does not engage, and the timer runs down by exactly the elapsed time |
| BodyAssist.EngagesOnceTimerRunsOut | Assets/Scripts/Game/MechaAnimation.cs:181-201 | an angle held above enter for at least the timer's time engages the assist by the end of the run |
| BodyAssist.StaysEngaged | Assets/Scripts/Game/MechaAnimation.cs:194-201 | an engaged assist stays engaged and unchanged while the angle stays at or above exit |
| BodyAssist.FirstExcursionIsImmediate | Assets/Scripts/Game/MechaAnimation.cs:179-188 | with the timer at its initial 0, the first frame above enter engages at once |
| BodyAssist.Evaluate | Assets/Scripts/Game/MechaAnimation.cs:147-209 | disabled reports nothing and keeps the latch; with no part to aim it never engages; the sign is ±1 following the signed angle; the residual is non-negative and zero when not engaged; the result is the latch's flag |
| BodyAssist.EvaluateOutcome | Assets/Scripts/Game/MechaAnimation.cs:174-208 | with a part to aim the latch takes one hysteresis step on abs(delta), and the residual brings abs(delta) down to the exit threshold and never exceeds it |
| Sensor.Consider | Assets/Scripts/Game/MechaProjectileSensor.cs:49-76 | an accepted collider is a non-friendly projectile closing on the sensor whose closest approach is within the hit radius, reported with its approach time, unit direction, origin and velocity |
| Sensor.ApproachTimePositive | Assets/Scripts/Game/MechaProjectileSensor.cs:58-62 | a closing projectile passes closest at a positive time, where r.v + t*abs(v)^2 = 0 |
| Sensor.ConsiderIff | Assets/Scripts/Game/MechaProjectileSensor.cs:51-67 | a collider is accepted if and only if it is a non-friendly closing projectile whose squared closest distance is at most the squared hit radius, the hit radius (mecha radius plus projectile radius, as serialized) being non-negative |
| Sensor.ThreatTime | Assets/Scripts/Game/MechaProjectileSensor.cs:62 | an accepted threat's time to impact is positive and equals the closest-approach time of the prediction utilities for a sensor at rest |
| Sensor.AcceptedIsAhead | Assets/Scripts/Game/MechaProjectileSensor.cs:60-63 | no accepted threat lies in the past |
| Sensor.Keep | Assets/Scripts/Game/MechaProjectileSensor.cs:69-75 | a candidate replaces the readings only when strictly earlier; a tie keeps the earlier candidate |
| Sensor.SelectIsFirstEarliest | Assets/Scripts/Game/MechaProjectileSensor.cs:42-77 | with no candidate the readings stay reset; otherwise they are those of the first candidate of least time to impact |
| Sensor.Scan | Assets/Scripts/Game/MechaProjectileSensor.cs:40-78 | a published time to impact is positive |
| Sensor.Candidates | Assets/Scripts/Game/MechaProjectileSensor.cs:49-52 | one candidate per collider, in query order |
| Sensor.ScanSelects | Assets/Scripts/Game/MechaProjectileSensor.cs:40-78 | the scan is the first-earliest selection over its colliders' candidates |
| Sensor.ScanReportsEarliest | Assets/Scripts/Game/MechaProjectileSensor.cs:40-78 | a scan reports +infinity and zero vectors when nothing is accepted, and otherwise the first accepted threat of least positive time to impact |
| Sensor.UpdateKeepsTimerInRange | Assets/Scripts/Game/MechaProjectileSensor.cs:30-38 | with a positive serialized update interval the timer stays in (0, interval], so the sensor scans at most once per interval, and the readings change only on a scanning frame |
| Sensor.NonPositiveIntervalScansEveryFrame | Assets/Scripts/Game/MechaProjectileSensor.cs:30-38 | with an update interval of 0 or below the timer stays at the interval and every frame rescans |
| Sensor.PathCrossWitness | Assets/Scripts/Game/MechaProjectileSensor.cs:80-90 | a positive answer needs a positive path speed and names a time in [0, horizon] at which the body and the tracked projectile are within the clearance |
| Prediction.GapIsLinear | Assets/Scripts/Game/AI/Utility/PredictionUtils.cs:17-22 | the relative position at time t is r0 + vRel t |
| Prediction.ClosestApproachTime | Assets/Scripts/Game/AI/Utility/PredictionUtils.cs:7-15 | 0 for relative speeds with square at most 1e-8; otherwise the time at which the relative velocity is orthogonal to the relative position |
| Prediction.ClosestApproachMinimises | Assets/Scripts/Game/AI/Utility/PredictionUtils.cs:7-15 | with a real relative speed (or none at all) the returned time minimises the distance over all times |
| Prediction.ClosestApproachSymmetric | Assets/Scripts/Game/AI/Utility/PredictionUtils.cs:7-15 | the time does not depend on which body is A |
| Prediction.DistanceAtTime | Assets/Scripts/Game/AI/Utility/PredictionUtils.cs:17-22 | the distance is non-negative and its square is the squared length of the gap at t |
| Prediction.DistanceSymmetric | Assets/Scripts/Game/AI/Utility/PredictionUtils.cs:17-22 | the distance is the same measured from either body |
| Prediction.EvaluatedTime | Assets/Scripts/Game/AI/Utility/PredictionUtils.cs:29-30 | the time the crossing test evaluates lies in [0, horizon] |
| Prediction.EvaluatedTimeMinimises | Assets/Scripts/Game/AI/Utility/PredictionUtils.cs:29-31 | the evaluated time is where the bodies come closest within [0, horizon] |
| Prediction.SameVelocityConstantGap | Assets/Scripts/Game/AI/Utility/PredictionUtils.cs:12 | with equal velocities the distance never changes, so returning 0 loses nothing |
| Prediction.MovingEvaluatedTime | Assets/Scripts/Game/AI/Utility/PredictionUtils.cs:12-30 | with a real relative speed the evaluated time is the parabola's vertex clamped into [0, horizon] |
| Prediction.WillPathsCrossWithin | Assets/Scripts/Game/AI/Utility/PredictionUtils.cs:24-35 | a non-positive horizon answers false with time 0 and distance +infinity; otherwise the distance is taken at the evaluated time, the answer is that distance <= max(0, clearance), and crossTime is that time only on a yes |
| Prediction.CrossingIsExact | Assets/Scripts/Game/AI/Utility/PredictionUtils.cs:24-35 | a false answer over a positive horizon means the bodies stay farther apart than the clearance at every time in [0, horizon] |
| Prediction.InterceptQuadratic | Assets/Scripts/Game/AI/Utility/PredictionUtils.cs:42-45 | abs(r + v t)^2 - (s t)^2 = a t^2 + b t + c for the code's coefficients |
| Prediction.QuadraticRoot | Assets/Scripts/Game/AI/Utility/PredictionUtils.cs:56-60 | a time from the quadratic formula satisfies a t^2 + b t + c = 0 |
| Prediction.EveryRootFromFormula | Assets/Scripts/Game/AI/Utility/PredictionUtils.cs:56-60 | every root of the quadratic with a != 0 is one of the two formula times |
| Prediction.RootNeedsDiscriminant | Assets/Scripts/Game/AI/Utility/PredictionUtils.cs:56-57 | a quadratic with a real root has a non-negative discriminant, so the rejection at disc < 0 loses no intercept |
| Prediction.PickRoot | Assets/Scripts/Game/AI/Utility/PredictionUtils.cs:61 | the picked root is one of the two, the smaller when both are positive and the larger otherwise |
| Prediction.PickRootIsLeastPositive | Assets/Scripts/Game/AI/Utility/PredictionUtils.cs:61-62 | the picked root is positive exactly when some root is, and is then the least positive root |
| Prediction.QuadraticIntercept | Assets/Scripts/Game/AI/Utility/PredictionUtils.cs:56-66 | a failure reports zero aim and time; a success has a positive time at which the target is exactly as far as the projectile flies, with the aim the unit direction to the target's position then |
| Prediction.RootMeets | Assets/Scripts/Game/AI/Utility/PredictionUtils.cs:56-63 | a formula root is a time at which the target is as far from the shooter as the projectile has flown |
| Prediction.QuadraticFindsEarliest | Assets/Scripts/Game/AI/Utility/PredictionUtils.cs:56-66 | whenever the target can be met at some positive time the quadratic branch succeeds, with a time no later |
| Prediction.PickedRootIsEarliest | Assets/Scripts/Game/AI/Utility/PredictionUtils.cs:59-62 | given any positive root, the picked root is positive and no later |
| Prediction.MeetsIsRoot | Assets/Scripts/Game/AI/Utility/PredictionUtils.cs:42-45 | a meeting time is a root of the intercept quadratic |
| Prediction.QuadraticMeets | Assets/Scripts/Game/AI/Utility/PredictionUtils.cs:56-66 | a time the quadratic branch reports is a meeting time |
| Prediction.LinearIntercept | Assets/Scripts/Game/AI/Utility/PredictionUtils.cs:46-55 | the near-linear branch as written: a success has time -c / max(1e-6, b) > 0 and aims at the target's position then |
| Prediction.TryFirstOrderIntercept | Assets/Scripts/Game/AI/Utility/PredictionUtils.cs:37-67 | a failure reports zero aim and time; a success has a positive time, aims at the target's position then, comes from the quadratic branch and is a meeting time |
| Prediction.LinearInterceptFails | Assets/Scripts/Game/AI/Utility/PredictionUtils.cs:45-50 | with c = abs(r)^2 >= 0 and a positive divisor the near-linear branch as written never succeeds |
| Prediction.LinearBranchAlwaysFails | Assets/Scripts/Game/AI/Utility/PredictionUtils.cs:46-50 | whenever abs(a) < 1e-6 the intercept as written fails |
| Prediction.LinearBranchMissesApproachingTarget | Assets/Scripts/Game/AI/Utility/PredictionUtils.cs:46-50 | a target at (10,0) closing at speed 1 on a shooter of speed 1 is met at t = 5, yet the code reports no intercept |
| Prediction.CorrectedLinearIntercept | Assets/Scripts/Game/AI/Utility/PredictionUtils.cs:46-55 | the near-linear branch as meant succeeds exactly when b < 0 < c, with the root of b t + c = 0 |
| Prediction.InterceptCorrected | Assets/Scripts/Game/AI/Utility/PredictionUtils.cs:37-67 | the intercept with the corrected near-linear branch: a failure reports nothing; a success has a positive time and aims at the target's position then |
| Prediction.LinearRootMeets | Assets/Scripts/Game/AI/Utility/PredictionUtils.cs:46-49 | with a = 0 a root of b t + c = 0 is a meeting time |
| Prediction.CorrectedLinearBranchMeets | Assets/Scripts/Game/AI/Utility/PredictionUtils.cs:46-55 | when a = 0 the corrected intercept succeeds exactly for a target closing in from a distance, and then meets it |
| Prediction.InterceptIsEarliest | Assets/Scripts/Game/AI/Utility/PredictionUtils.cs:37-67 | outside the near-linear case the reported time is a meeting time and no positive meeting time is earlier |
| Prediction.StationaryTarget | Assets/Scripts/Game/AI/Utility/PredictionUtils.cs:37-67 | a target at rest at a distance is hit: the projectile flies exactly the distance, and the aim points straight at the target |
| DashUtils.CanReachWithDash | Assets/Scripts/Game/AI/Utility/DashUtils.cs:39-43 | a dash is advised only to close a gap, and only with a positive dash distance: the gap must exceed 30% and be at most 150% of it |
| DashUtils.ApproachDirection | Assets/Scripts/Game/AI/Utility/DashUtils.cs:21-30 | the approach direction lies in the XY plane |
| DashUtils.ApproachPointsAtTarget | Assets/Scripts/Game/AI/Utility/DashUtils.cs:21-30 | the direction is a unit vector pointing at the target when the two are more than 1e-5 apart in the plane, zero otherwise, and ignores the mecha, sensor and blackboard |
| Projectile.Initialize | Assets/Scripts/Game/Projectile/Projectile.cs:58-70 | team, clamped damage and impact, full lifetime and zero elapsed time are set; the heading is the unit flat direction to the target; the prefab's homing flag and the position are kept |
| Projectile.LaunchDir | Assets/Scripts/Game/Projectile/Projectile.cs:82-87 | a given non-zero direction is normalised; a zero one falls back to the up vector |
| Projectile.InitializeWithDirection | Assets/Scripts/Game/Projectile/Projectile.cs:73-89 | an unguided launch: no target, homing switched off, the launch heading, clamped damage and impact, full lifetime |
| Projectile.InitializeWithDirectionAndTarget | Assets/Scripts/Game/Projectile/Projectile.cs:92-108 | a guided launch along the given heading: the target is set and the prefab's homing flag is kept |
| Projectile.ZeroDirectionUsesUp | Assets/Scripts/Game/Projectile/Projectile.cs:83-86 | both direction-given initialisers fly along the up vector when given a zero direction and along the given direction otherwise |
| Projectile.HomingDir | Assets/Scripts/Game/Projectile/Projectile.cs:160-183 | the heading changes only when the window is open, the strength is positive, the target is not reached and it is inside the tracking cone |
| Projectile.ExpiryBeforeMovement | Assets/Scripts/Game/Projectile/Projectile.cs:134-145 | once the lifetime runs out the projectile is destroyed where it stands, without turning |
| Projectile.WindowFlag | Assets/Scripts/Game/Projectile/Projectile.cs:152-158 | for a homing projectile with a target, the homing flag is exactly delay <= elapsed <= delay + duration |
| Projectile.HeadingChangesOnlyWhenTurning | Assets/Scripts/Game/Projectile/Projectile.cs:152-192 | a tracking projectile's heading changes only on a frame where it actually turns |
| Projectile.FlightKeepsLaunchData | Assets/Scripts/Game/Projectile/Projectile.cs:132-203 | over any frames with non-negative times, elapsed time never decreases and settings, team, damage, impact, target and initial heading stay fixed; a destroyed projectile never changes |
| Projectile.StraightFlight | Assets/Scripts/Game/Projectile/Projectile.cs:186-192 | a projectile that does not home keeps its initial heading on every frame and never switches homing on |
| Projectile.HomingNeverReengages | Assets/Scripts/Game/Projectile/Projectile.cs:155-158 | once past the end of the homing window, homing never switches back on |
| Projectile.NoTurnAfterWindow | Assets/Scripts/Game/Projectile/Projectile.cs:155-183 | after the window a tracking frame leaves the heading unchanged |
| Projectile.LostTargetSnapsBack | Assets/Scripts/Game/Projectile/Projectile.cs:152-190 | a homing projectile whose target is gone flies its initial heading and keeps its homing flag |
| Projectile.OnTrigger | Assets/Scripts/Game/Projectile/Projectile.cs:205-217 | a hit happens exactly on a live mecha of another team; it deals the projectile's damage and impact once and destroys it; anything else changes nothing |
| Projectile.HitDamageNonNegative | Assets/Scripts/Game/Projectile/Projectile.cs:58-211 | the damage a hit deals is never negative, whatever the initialiser was given |
| Strafe.NewStrafer | Assets/Scripts/Game/AI/Actions/MaintainRangeStrafeAction.cs:22-35 | a fresh strafer orbits to the +1 side with no pending toggle, its timer at zero and its first wait the drawn one; the orbit weight is clamped into [0,1] and the margin at 0, and an evade toggle is allowed at once |
| Strafe.TriggerEvadeToggle | Assets/Scripts/Game/AI/Actions/MaintainRangeStrafeAction.cs:38-45 | a toggle becomes pending exactly when one already was or at least 0.4 s have passed since the last evade; nothing else changes |
| Strafe.DesiredRange | Assets/Scripts/Game/AI/Actions/MaintainRangeStrafeAction.cs:58-69 | the range kept is always positive: the longest weapon range, or 1.5 without a ranged weapon |
| Strafe.RadialError | Assets/Scripts/Game/AI/Actions/MaintainRangeStrafeAction.cs:88-101 | the radial error is never negative |
| Strafe.WeightsInRange | Assets/Scripts/Game/AI/Actions/MaintainRangeStrafeAction.cs:85-105 | the radial weight lies in [0,1] and the tangential one between 1 - orbitWeight and 1; inside the dead zone the orbit is pure |
| Strafe.TangentIsPerpendicular | Assets/Scripts/Game/AI/Actions/MaintainRangeStrafeAction.cs:79-82 | the orbit direction is perpendicular to the line to the target, on either side |
| Strafe.DeadzoneIsPureOrbit | Assets/Scripts/Game/AI/Actions/MaintainRangeStrafeAction.cs:84-112 | up to the dead zone inside the range, the mecha moves along the pure unit tangent |
| Strafe.BlendRadialSense | Assets/Scripts/Game/AI/Actions/MaintainRangeStrafeAction.cs:88-112 | outside the range the steering never leads away from the target, inside it never leads towards it |
| Strafe.SteerRadialSense | Assets/Scripts/Game/AI/Actions/MaintainRangeStrafeAction.cs:106-112 | the same holds after the fallback to the tangent for a near-zero blend |
| Strafe.TogglesFlipSide | Assets/Scripts/Game/AI/Actions/MaintainRangeStrafeAction.cs:118-137 | the orbit side flips once for a pending toggle and once more when the wait runs out, stays at plus or minus one, the pending toggle is consumed and only the timers, the wait and the side change |
| Strafe.StrafeTickOutcome | Assets/Scripts/Game/AI/Actions/MaintainRangeStrafeAction.cs:47-140 | the leaf never succeeds; it fails exactly when self, target or self's mecha is missing; on failure or a coincident target neither strafer nor scene change |
| Strafe.PredictionMatchesUnarmed | Assets/Scripts/Game/AI/Actions/MaintainRangeStrafeAction.cs:143-181 | the predicted direction equals the executed one for a mecha without a ranged weapon, since the prediction always uses the 1.5 fallback range |
| Strafe.PredictionExists | Assets/Scripts/Game/AI/Actions/MaintainRangeStrafeAction.cs:143-181 | a direction is predicted exactly when self and target resolve and are further apart in the plane than the float epsilon |
| Evade.NewToggle | Assets/Scripts/Game/AI/Actions/EvadeToggleAction.cs:19-28 | the simple constructor starts inactive with no cooldown, an enter threshold of at least 0.05, an exit threshold 0.2 above it and a 0.6 s re-trigger cooldown |
| Evade.NewToggleAdvanced | Assets/Scripts/Game/AI/Actions/EvadeToggleAction.cs:31-39 | the advanced constructor keeps any enter threshold of at least 0.05, any exit threshold at least 0.05 above enter and any non-negative cooldown, and raises the others to those bounds |
| Evade.PathCheck | Assets/Scripts/Game/AI/Actions/EvadeToggleAction.cs:69-78 | the path is checked only with a predicted strafe direction and a moving projectile, over a horizon of the exit threshold but at least 0.1 s and with a 0.6 clearance; otherwise there is no crossing |
| Evade.HysteresisTransitions | Assets/Scripts/Game/AI/Actions/EvadeToggleAction.cs:80-98 | activation needs a crossing sooner than enter, clearing needs no crossing or one later than exit, the toggle fires exactly on an activation with the cooldown run out and then re-arms the cooldown, and the thresholds stay valid |
| Evade.HysteresisBand | Assets/Scripts/Game/AI/Actions/EvadeToggleAction.cs:80-98 | a crossing between the enter and exit thresholds keeps the threat state as it was and fires nothing |
| Evade.Decay | Assets/Scripts/Game/AI/Actions/EvadeToggleAction.cs:56-60 | the cooldown decays by the frame time, never below zero and never upwards |
| Evade.ToggleTickOutcome | Assets/Scripts/Game/AI/Actions/EvadeToggleAction.cs:41-101 | the leaf fails, changing nothing, exactly when self, the strafe leaf or the sensor is missing, and otherwise runs; the thresholds are kept; the strafe is asked to toggle only on the tick the threat turns active with the decayed cooldown run out |
| Evade.DecideIsFirstDecisive | Assets/Scripts/Game/AI/Actions/EvadeDashAction.cs:62-163 | the side comes from the first tier whose difference exceeds its threshold, and from the fallback only when none does |
| Evade.PreferredIsBetter | Assets/Scripts/Game/AI/Actions/EvadeDashAction.cs:81-84 | a decisive tier's side is the one that scores better there, lower or higher as the tier prefers |
| Evade.OptimalWeaponRange | Assets/Scripts/Game/AI/Actions/EvadeDashAction.cs:284-307 | the optimal range is positive; it is the longest weapon range when some weapon has a positive range, and 8 when none does |
| Evade.SideIsPerpendicular | Assets/Scripts/Game/AI/Actions/EvadeDashAction.cs:65-66 | either side is a quarter turn of the incoming direction, perpendicular to it and as long as it |
| Evade.EvadeIsPerpendicular | Assets/Scripts/Game/AI/Actions/EvadeDashAction.cs:62-164 | whatever the tiers decide, the evade direction is one of the two perpendiculars of the incoming direction |
| Evade.SafetyDecidesFirst | Assets/Scripts/Game/AI/Actions/EvadeDashAction.cs:73-84 | a safety difference above 0.8 for a homing threat or 1.5 otherwise decides before anything else, for the safer side |
| Evade.FallbackLast | Assets/Scripts/Game/AI/Actions/EvadeDashAction.cs:150-163 | with no decisive tier the dash goes to the side pointing further away from the projectile's origin |
| Evade.HomingIgnoresRange | Assets/Scripts/Game/AI/Actions/EvadeDashAction.cs:112-132 | against a homing threat the target and the weapon range play no part in the choice |
| Evade.NewDasher | Assets/Scripts/Game/AI/Actions/EvadeDashAction.cs:13-19 | the time-to-impact threshold is at least 0.05 and any larger given value is kept |
| Evade.HomingWindowWider | Assets/Scripts/Game/AI/Actions/EvadeDashAction.cs:34 | a homing threat is reacted to over a window 1.5 times wider than a straight one |
| Evade.DashTickOutcome | Assets/Scripts/Game/AI/Actions/EvadeDashAction.cs:21-57 | the leaf never succeeds; it runs exactly when self has a mecha and a sensor and a high-threat projectile is inside the window while a dash is possible, even if the dash then does not start; the scene changes only by a dash that starts sideways to the incoming direction, and the strafe is told only then |
| Evade.DashDirAlongEvade | Assets/Scripts/Game/AI/Actions/EvadeDashAction.cs:45-50 | the dash direction after normalisation stays perpendicular to the incoming direction |
| Secure.Write | Assets/Scripts/SecureCodec/Secure.cs:69-80 | the setter keeps the salt, records the codec's lane count, stores each used lane under its fresh key so that it decrypts to the value's lane, refreshes its mirror, leaves unused lanes alone, and leaves the wrapper consistent |
| Secure.Construct | Assets/Scripts/SecureCodec/Secure.cs:27-47 | the constructor takes the given salt, leaves every lane past the codec's count at zero, stores each used lane under its key with a matching mirror, and is consistent |
| Secure.Get | Assets/Scripts/SecureCodec/Secure.cs:49-68 | a read keeps mirrors, salt and lane count, re-keys exactly the used lanes with the fresh keys, and raises the flag at most once per used lane |
| Secure.TamperedIffInconsistent | Assets/Scripts/SecureCodec/Secure.cs:56-59 | a read raises the flag exactly when some used lane no longer matches its mirror |
| Secure.ReadIsStable | Assets/Scripts/SecureCodec/Secure.cs:61-65 | rolling the keys on a read changes neither the value nor the flag outcome of the next read |
| Secure.PaddedLanes | Assets/Scripts/SecureCodec/Secure.cs:35-36 | for a valid codec the zero padding past its lane count is exactly what its encoding holds |
| Secure.ConstructThenGet | Assets/Scripts/SecureCodec/Secure.cs:27-67 | reading a freshly built wrapper gives its value back without raising the flag, whatever salt and keys are drawn |
| Secure.WriteThenGet | Assets/Scripts/SecureCodec/Secure.cs:49-80 | reading after the setter gives the value just set without raising the flag, whatever the wrapper held before |
| Secure.KeysDoNotMatter | Assets/Scripts/SecureCodec/Secure.cs:43-65 | the decoded value and the mirrors do not depend on the keys drawn, even for a codec that does not round-trip |
| Secure.LaneChangeBreaksMirror | Assets/Scripts/SecureCodec/Secure.cs:56-59 | under a fixed key and salt a different encrypted lane never matches the old mirror |
| Secure.ChangedLaneIsFlagged | Assets/Scripts/SecureCodec/Secure.cs:56-59 | overwriting a used encrypted lane while leaving its key and mirror alone is caught by the next read |
| Secure.ChangedMirrorIsFlagged | Assets/Scripts/SecureCodec/Secure.cs:56-59 | overwriting a used mirror with a different word is caught by the next read |
| Secure.MirrorInjective | Assets/Scripts/SecureCodec/Secure.cs:43-46 | under a fixed salt, different lanes have different mirrors in wrapping 32-bit arithmetic |
| Secure.DecryptInjective | Assets/Scripts/SecureCodec/Secure.cs:56-59 | under one key, two stored lanes decrypt to the same lane exactly when they are equal |
| Secure.ByteOf | Assets/Scripts/SecureCodec/Secure.cs:12-31 | the lane count kept in a byte is never larger than the codec's and equals it below 256 |
| Codecs.IntToLanes | Assets/Scripts/SecureCodec/IntCodec.cs:4 | an int occupies lane 0 unchanged, the other lanes stay 0 |
| Codecs.IntCodec | Assets/Scripts/SecureCodec/IntCodec.cs:3 | the int codec uses one lane |
| Codecs.IntCodecValid | Assets/Scripts/SecureCodec/IntCodec.cs:2-5 | decoding undoes encoding for every int; re-encoding a decoded buffer restores lane 0 and reproduces the buffer exactly when the other lanes are 0 |
| Codecs.BoolToLanes | Assets/Scripts/SecureCodec/BoolCodec.cs:4 | a bool occupies lane 0, the other lanes stay 0 |
| Codecs.BoolCodec | Assets/Scripts/SecureCodec/BoolCodec.cs:3 | the bool codec uses one lane |
| Codecs.BoolCodecValid | Assets/Scripts/SecureCodec/BoolCodec.cs:2-5 | true and false round-trip; re-encoding a decoded lane normalises any non-zero word to 1; the buffer is reproduced exactly when lane 0 is 0 or 1 and the rest are 0 |
| Codecs.Widen | Assets/Scripts/SecureCodec/DoubleCodec.cs:12 | widening an int to a long keeps its low half and fills the high half with its sign |
| Codecs.Narrow | Assets/Scripts/SecureCodec/DoubleCodec.cs:7-8 | narrowing a long that fits in 32 bits keeps it |
| Codecs.MaskLow | Assets/Scripts/SecureCodec/DoubleCodec.cs:7 | masking with 0xFFFFFFFF keeps exactly the low 32 bits |
| Codecs.ShiftUp | Assets/Scripts/SecureCodec/DoubleCodec.cs:12 | shifting a long up by 32 moves its low half into the high half and drops the old high half |
| Codecs.ShiftDown | Assets/Scripts/SecureCodec/DoubleCodec.cs:8 | after an arithmetic shift down by 32 the low half holds the old high half |
| Codecs.DoubleToLanes | Assets/Scripts/SecureCodec/DoubleCodec.cs:5-9 | a double's pattern uses lanes 0 and 1 only |
| Codecs.DoubleCodec | Assets/Scripts/SecureCodec/DoubleCodec.cs:3 | the double codec uses two lanes |
| Codecs.DoubleLanesAreHalves | Assets/Scripts/SecureCodec/DoubleCodec.cs:5-9 | lane 0 holds the low and lane 1 the high 32 bits of the 64-bit pattern |
| Codecs.DoubleFromHalves | Assets/Scripts/SecureCodec/DoubleCodec.cs:11-14 | reassembly puts lane 1 in the high half and lane 0 in the low half, whatever the sign of lane 0 |
| Codecs.MaskIsNeeded | Assets/Scripts/SecureCodec/DoubleCodec.cs:12 | without the mask a low lane with its sign bit set would fill the high half with ones |
| Codecs.DoubleRoundTrip | Assets/Scripts/SecureCodec/DoubleCodec.cs:5-14 | decoding the lanes of any 64-bit pattern gives the same pattern back |
| Codecs.DoubleLanesRoundTrip | Assets/Scripts/SecureCodec/DoubleCodec.cs:5-14 | encoding what any two lanes decode to gives the same two lanes back |
| Codecs.DoubleCodecValid | Assets/Scripts/SecureCodec/DoubleCodec.cs:2-15 | the double codec is one the wrapper can give every value back through |
| Codecs.SecureValuesRoundTrip | Assets/Scripts/SecureCodec/Secure.cs:27-67 | a wrapped int, bool or double reads back unchanged without raising the flag, whatever salt and keys are drawn |

## Left out

- Floating point: every `float` is a real. There is no rounding, no NaN and no infinity arithmetic. `float.PositiveInfinity` readings are the `PosInf` case of `Numeric.Extended`. The NaN and finiteness guards are not modelled, namely the one before the body-assist angle (MechaAnimation.cs:154) and the finiteness test on `WillPathCross`'s path speed (MechaProjectileSensor.cs:84), whose non-positive test is modelled.
- Square root, `Vector3.Angle`, `Vector2.SignedAngle`, `Vector3.RotateTowards` and the homing `Lerp` are caller-supplied functions. The square root is constrained by `IsSqrt`; the angle and turn functions are unconstrained. The model fixes when they are consulted and what is done with their results.
- `Random.Range` draws (the strafe's toggle waits) and the xorshift key generator of `Secure` (Secure.cs:16-24) are parameters: any sequence of draws is allowed.
- The clock ticks used as the salt (Secure.cs:32) are a parameter.
- `Secure.Get`: the anti-cheat `Flag()` call (Secure.cs:25) is counted rather than sent to `AntiCheatSignals`; the count is the number of mismatching lanes.
- `BitConverter.DoubleToInt64Bits` and `Int64BitsToDouble` are identities: a double is its 64-bit pattern, so `DoubleCodec` is modelled on patterns.
- `FloatCodec` and the `Vector2`/`Vector3`/`Vector4` codecs reinterpret float bits, which Dafny cannot express over reals; they are not part of this model. Nor are the `SecureTypes` aliases and the implicit conversions (Secure.cs:83-84), which only call the constructor and the getter.
- `Weapon.AttackRange` is a record field, and `Weapon.TryAttack` is an input that reports whether a shot went off. The weapon's own ammunition and cooldown logic is not part of this model.
- `Mecha.TakeDamage`: only the hit-point effect of the two-argument overload is modelled. The impact value is carried but has no effect, because no stagger logic exists in the code.
- `MechaStats` declares fields for stagger and assault boost (Assets/Scripts/Data/MechaStats.cs:23-49), but `Mecha.cs` has no logic that uses them, so neither is modelled.
- Body and head rotation (`FaceTowards`, `AimTowards`, `transform.right` as the aim direction) is left out; the attack leaf's aim is the mecha's current facing vector.
- Animation, thrusters and particle effects of `MechaAnimation` are left out; only the body-assist controller is modelled.
- `MechaRegistry` registration in `OnEnable` and removal in `OnDisable` (Mecha.cs:107-122) are left out; the roster is the scene's mecha list.
- `Physics2D.OverlapCircleAll` is an input: the sensor's scan receives the colliders in the order the query returned them. So the serialized sense radius and layer mask (MechaProjectileSensor.cs:7-8), which only parameterise that query, are not part of the sensor's `Config`; its update interval and the two radii are, with any real value allowed.
- `Instantiate` and `Destroy` are left out; a projectile's `alive` flag stands for its game object still existing.
- `MechaProjectileSensor`'s `IncomingIsHoming` and `IncomingIsHighThreat` classifications are inputs to the evade leaves. The future-safety scores of `EvadeDashAction` (EvadeDashAction.cs:170-279) are an input function too: the side cascade is proved for any safety score.
- `EvadeDashAction` calls `UpdateDirectionFromDash` on the strafe leaf (EvadeDashAction.cs:50), but `MaintainRangeStrafeAction` defines no such method. The model returns the direction that would be handed over and changes no strafe state.
- `Consideration` scores come from a Unity `AnimationCurve`, so the utility scorer takes its considerations' scores as an input sequence.
- UniTask and async plumbing are left out: composites and the executor run their children synchronously and in order, which is what one frame does. `Parallel`'s `UniTask.WhenAll` is modelled as running every child in order.
- The executor's logging and exception messages are left out: an exception from the root is a `Threw` outcome.
- `BehaviorTree.Tick`, `BehaviorTreeRunner` and `PilotAI` are lifecycle glue and are left out, as is `IdleAction`, a constant Success leaf.
- `Sensor.Update` and `Sensor.WillPathCross` have contracts that follow their bodies; their meaning is stated by `UpdateKeepsTimerInRange` and `PathCrossWitness`.
- `BehaviorTree.Eval`, `BehaviorTree.GetScore`, `Mecha.Update`, `Projectile.Update`, `Strafe.StrafeTick`, `Strafe.TryPredictDesiredDirection`, `Evade.ToggleTick`, `Evade.SmartEvadeDirection`, `Evade.DashTick` and `Targeting.MoveToTarget` model their source functions without contracts of their own. Their meaning is stated by lemmas about them: `EvalComposite`, `ShortCircuit` and `ParallelOutcome` for `Eval`; `GetScoreMatchesStrategy` and `GetScoreUnit` for `GetScore`; `UpdateDashRemaining`, `DashEndsOnlyWhenSpent`, `UpdateEnergy` and `UpdateDisablesDead` for `Mecha.Update`; `FlightKeepsLaunchData`, `ExpiryBeforeMovement`, `WindowFlag` and `StraightFlight` for `Projectile.Update`; `StrafeTickOutcome` and `TogglesFlipSide` for `StrafeTick`; `PredictionExists` and `PredictionMatchesUnarmed` for `TryPredictDesiredDirection`; `ToggleTickOutcome` for `ToggleTick`; `EvadeIsPerpendicular`, `SafetyDecidesFirst` and `FallbackLast` for `SmartEvadeDirection`; `DashTickOutcome` for `DashTick`; `MoveToTargetOutcome` for `MoveToTarget`.
- `BehaviorTree.EvalAll`, `BehaviorTree.Scores` and `World.Roster` only map a function over a list; their meaning is carried by `EvalComposite`, `UtilitySelectorRunsBest` and `FindClosestEnemy`.
- `Builder.Build`: the Sequence, Selector and Parallel builders hand their own child list to the node they build (BehaviorTreeBuilder.cs:78-107), and `CompositeNode` keeps that list rather than a copy (CompositeNode.cs:11). So an `Add` after `Build` also changes the built node, and two `Build` calls on one builder give nodes that share one child list. The model builds from a value and cannot show this aliasing; it covers only a builder used once, with every `Add` before `Build`. The utility selector builder is not affected.
- `Targeting.UpdateTarget` requires its team key and target key to differ. The constructor accepts equal keys (UpdateTargetAction.cs:20-32), but the action stores an int under one and a game object under the other (UpdateTargetAction.cs:7-12), and with one key the target write would overwrite the team just stored; the model does not cover that configuration.
- `Codecs.ShiftDown` states only the low half of the arithmetic shift; the high half, all ones for a negative pattern, is masked away by the one caller (DoubleCodec.cs:8).

## Findings

| source | as written | input that shows it | evidently intended | confidence | as-written member | corrected member |
|---|---|---|---|---|---|---|
| Assets/Scripts/Game/AI/Utility/PredictionUtils.cs:46-55 | when the quadratic term vanishes (the target as fast as the projectile), the time is `-c / Mathf.Max(1e-6f, b)` where `c`, the squared distance to the target, is never negative, so it is never positive and the intercept is always rejected | shooter at the origin with speed 1, target at (10, 0) moving at (-1, 0): the target is reached at t = 5, but the branch yields t = -c / 1e-6 < 0 and reports no intercept | `t = -c / b` when `b < 0 < c`, the unique positive root of `b t + c = 0` | high, not executed | Prediction.LinearBranchMissesApproachingTarget | Prediction.CorrectedLinearBranchMeets |
