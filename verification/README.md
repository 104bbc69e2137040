# Burpee frog: a verified model of the game engine

Burpee frog is a frogger-like game played on a dance mat. The frog
crosses 13 horizontal lanes, bottom to top: a meadow, five roads with
vehicles, a meadow, five river lanes with floating trunks, and the goal
meadow. The frog jumps one lane up when the player presses the four jump
buttons (cross, circle, square and triangle) within 1.25 seconds of each
other. It dies when a vehicle hits it. It drowns when it stands in the
river without a trunk under it, or when a trunk carries it off the scene.
It wins on reaching the top meadow.

The engine is a single-threaded state machine over one global state. It is
driven by a queue of events: button presses, jump requests, ticks, quit,
restart and game over. Each call of `handle` consumes the front event and
may append new events at the back. After every frame the main loop
appends a tick and drains the queue.

The model has two layers.

* **Values and specifications.** These are modules `Scene`, `Geometry`,
  `Entities`, `Traffic`, `Riding`, `Combo`, `Jumping`, `Game` and
  `Properties`.
  * Lanes, movers (vehicles and trunks), jumps and the frog are datatypes.
  * One tick is the function `Game.TickSpec`. One dispatch is the function
    `Game.Step`.
  * `Game.ValidSnapshot` is the invariant of every reachable state:
    * 13 lanes of the fixed kinds;
    * sprites of positive size;
    * only jump buttons recorded;
    * the frog inside the lanes;
    * a jump in flight that is well formed and goes from one lane to the
      next.
  * The lemmas state what the game promises about these functions.
* **The engine as it runs.** Module `Engine` holds the mutable global
  state (class `State`) and the mutable event queue (class `EventQueue`).
  * The handlers update both in place, with the loops of `main.py`:
    * move, cull and spawn per lane;
    * scan the vehicles for crashes;
    * scan the trunks for the one carrying the frog.
  * Each handler is proved to leave exactly the state and queue that the
    value-level definition gives.
  * `Engine.Drain` is the main loop's "handle until the queue is empty".
    It is proved to terminate with the state and sounds of
    `Properties.Drained`, which runs every queued event through `Game.Step`
    in queue order. It is also proved to keep the invariant and, when no
    restart is queued, to let the first outcome win and to play at most one
    outcome sound.

Inputs from the outside world are parameters:

* The wall clock read by each dispatch is `now`. `Engine.Drain` takes a
  clock that never runs backwards, one reading per dispatch.
* Each tick takes one `Draw` per lane in place of the random choices. A
  draw holds the width and height of the chosen sprite and the random
  fraction in [0, 1) that spreads the entry point.
* Sounds are returned as a value (`Option<Sound>`) instead of being
  played.

Positions, velocities and times are reals.

## Model

| member | source | states |
|---|---|---|
| Scene.LaneIndexForY | burpeefrog/main.py:410-412 | for y no higher than the scene height the lane is the truncated distance from the bottom divided by the lane height: the distance lies in [r·39, (r+1)·39), and r is below 13 exactly when y lies inside the lanes |
| Scene.FrogStartInFirstLane | burpeefrog/main.py:74-77 | the start position of the frog lies inside the lanes, in lane 0 |
| Scene.JumpLandsInLanes | burpeefrog/main.py:545-552 | from any lane below the goal a jump of one lane height lands inside the lanes |
| Entities.KindAt | burpeefrog/main.py:295-309 | definition: lanes 1 to 5 are road lanes, lanes 7 to 11 river lanes, and lanes 0, 6 and 12 meadows; Game.InitialLanes states that the start lanes follow it |
| Geometry.Intersect | burpeefrog/main.py:394-407 | definition: two boxes intersect when each one's minimum is at most the other's maximum on both axes, bounds included; Geometry.IntersectIffCommonPoint gives its meaning |
| Geometry.IntersectIffCommonPoint | burpeefrog/main.py:390-407 | for boxes with min ≤ max on both axes, the test holds exactly when some point lies in both boxes |
| Geometry.IntersectSymmetric | burpeefrog/main.py:390-407 | the test does not depend on the order of the two boxes |
| Geometry.IntersectReflexive | burpeefrog/main.py:390-407 | every well-formed box intersects itself |
| Geometry.GapSeparates | burpeefrog/main.py:390-407 | boxes separated by a gap on either axis do not intersect |
| Traffic.Survivors | burpeefrog/main.py:349-359 | the movers kept by the cull keep positive sizes |
| Traffic.Exited | burpeefrog/main.py:352-358 | definition: a mover has left when it moves right (velocity ≥ 0) and its x is at least 448, or moves left and its x plus its width is below 0; its use is stated by Traffic.SurvivorsSelect and Traffic.LaneStepSpawn |
| Traffic.NeedsSpawn | burpeefrog/main.py:344-358 | definition: a lane takes a new mover when it is empty or some mover has left; Traffic.LaneStepSpawn states its effect |
| Traffic.Speed | burpeefrog/main.py:362-364 | definition: the speed of the lane's movers, 0.06 px per tick for vehicles and for trunks; Traffic.Spawned states the signed velocity it gives a new mover |
| Traffic.Advanced | burpeefrog/main.py:339-341 | definition: one tick of motion adds the mover's velocity to its x and changes nothing else; Traffic.MoveAll applies it to a whole lane |
| Traffic.MoveAll | burpeefrog/main.py:339-341 | moving keeps every mover of positive size |
| Traffic.SurvivorsSelect | burpeefrog/main.py:349-359 | the kept movers are exactly the movers that did not leave the scene, picked out in their original order |
| Traffic.KeptIndicesBounded | burpeefrog/main.py:343-359 | the cull keeps at most every mover, and strictly fewer when some mover left |
| Traffic.NoSpawnKeepsAll | burpeefrog/main.py:343-387 | when no mover left and the lane was not empty the cull keeps the whole list, so leaving the vehicle list unwritten in that case changes nothing |
| Traffic.Spawned | burpeefrog/main.py:362-385 | a new mover has the drawn size, moves right at the lane's speed in even lanes and left in odd lanes, enters from just left of the scene (−spread < x + width ≤ 0) or just right of it (448 ≤ x < 448 + spread), where the spread is the sprite's width for a vehicle and 20 px for a trunk, and is centred vertically in its lane |
| Traffic.EntryX | burpeefrog/main.py:373-382 | a rightward mover enters with its right edge at most 0 and less than one spread left of it; a leftward mover enters at x at least 448 and less than 448 plus the spread |
| Traffic.LaneTop | burpeefrog/main.py:365-369 | definition: the top edge of lane i is the scene height minus (i + 1) lane heights; Traffic.Spawned centres a new mover below it |
| Traffic.LaneStep | burpeefrog/main.py:339-387 | one tick of one lane keeps every mover of positive size |
| Traffic.LaneStepRetained | burpeefrog/main.py:339-359 | after one tick of a lane, every mover that stays has advanced by exactly its velocity and is otherwise unchanged; the movers that stay keep their relative order; they are exactly those that did not leave |
| Traffic.SurvivorsInLaneStep | burpeefrog/main.py:362-387 | the kept movers appear in the new lane in their order, after the entering mover when it comes from the left and before it otherwise |
| Traffic.LaneStepSpawn | burpeefrog/main.py:343-387 | one tick adds at most one mover, exactly when the lane was empty or a mover left; a mover coming from the left goes first and one coming from the right goes last; an empty lane ends with exactly the new mover |
| Traffic.StepLane | burpeefrog/main.py:339-387 | the in-place move loop and the cull loop, with the spawn and the write-back, compute one lane step |
| Traffic.MoveMovers | burpeefrog/main.py:339-341 | the in-place move loop advances every mover by its own velocity |
| Traffic.CullMovers | burpeefrog/main.py:343-359 | the cull loop keeps exactly the survivors in their order, and flags a spawn exactly when some mover left |
| Traffic.TrafficStep | burpeefrog/main.py:335-387 | a traffic step keeps the number of lanes and each lane's kind, and keeps sprite sizes positive |
| Traffic.Carries | burpeefrog/main.py:337-338 | definition: a lane carries vehicles exactly when it is a road lane and trunks exactly when it is a river lane; meadow lanes carry neither; Traffic.TrafficStepLanes states that lanes which do not carry the kind stay unchanged |
| Traffic.StepLaneOfKind | burpeefrog/main.py:337-338 | definition: a lane of the kind being stepped takes one lane step with its draw, and any other lane is returned unchanged; Traffic.TrafficStepLanes states the result lane by lane |
| Traffic.TrafficStepLanes | burpeefrog/main.py:335-387 | a traffic step leaves lanes of the other kinds untouched and applies one lane step, with the lane's own draw, to each lane of its kind |
| Riding.FirstCarrier | burpeefrog/main.py:424-431 | the search finds the first trunk that the frog stands on entirely, and finds none only when no trunk carries the frog |
| Riding.TrunkUnderFrog | burpeefrog/main.py:415-433 | no trunk carries a jumping frog or a frog outside the river; a trunk that is found lies in the frog's lane and carries it; none is found in the river only when no trunk of the lane carries the frog |
| Riding.SailFrog | burpeefrog/main.py:442-448 | a carried frog moves horizontally by the velocity of its trunk; otherwise it stays put; its height and jump are unchanged |
| Riding.OnTrunk | burpeefrog/main.py:426-430 | definition: the frog stands on a trunk when the trunk's x is at most the frog's x and the frog's x plus its width of 25 is strictly below the trunk's x plus the trunk's width; Riding.FirstCarrier and Riding.TrunkUnderFrog state the search over it |
| Riding.FrogLane | burpeefrog/main.py:420-422 | definition: the lane at the index Scene.LaneIndexForY gives for the frog's y |
| Riding.FindTrunkOnWhichFrog | burpeefrog/main.py:415-433 | the scan over the trunks returns the trunk that carries the frog, if any |
| Riding.FirstCarrierIsFirst | burpeefrog/main.py:424-431 | a carrying trunk with no carrying trunk before it is the one the search returns |
| Combo.Earliest | burpeefrog/main.py:521 | definition: the least of the four recorded jump-button timestamps; Combo.EarliestLatestAreExtremes proves it is the minimum of the record |
| Combo.Latest | burpeefrog/main.py:522 | definition: the greatest of the four recorded jump-button timestamps; Combo.EarliestLatestAreExtremes proves it is the maximum of the record |
| Combo.EarliestLatestAreExtremes | burpeefrog/main.py:519-522 | over a record of the four jump buttons, the earliest and latest timestamps are the minimum and maximum of the recorded values |
| Combo.SpreadBelowToleranceIffTogether | burpeefrog/main.py:519-526 | the spread between latest and earliest press is below 1.25 seconds exactly when every two recorded presses are less than 1.25 seconds apart |
| Combo.RecordPress | burpeefrog/main.py:511-528 | a button outside the combo changes nothing; a combo button records `now`; the press requests a jump, and clears the record, exactly when all four buttons are then recorded within the tolerance; otherwise the new timestamp stays recorded |
| Combo.FullComboCoversJumpButtons | burpeefrog/main.py:318-323 | four presses of distinct jump buttons cover every one of the four jump buttons |
| Combo.ComboFromEmpty | burpeefrog/main.py:511-528 | from an empty record, presses of the four jump buttons request exactly one jump and leave an empty record when every two presses are less than 1.25 seconds apart; otherwise they request no jump and all four presses stay recorded |
| Combo.FirstThreePresses | burpeefrog/main.py:511-528 | the first three presses of four distinct jump buttons only record their timestamps and request no jump |
| Combo.LastPressDecides | burpeefrog/main.py:511-528 | the fourth press completes the record; it requests a jump and clears the record exactly when the four presses lie within the tolerance, and otherwise stays recorded |
| Combo.TogetherIffPressesClose | burpeefrog/main.py:519-526 | for the record of four distinct presses, all buttons are pressed together exactly when every two of the presses are less than 1.25 seconds apart |
| Jumping.NewJump | burpeefrog/main.py:545-552 | a new jump starts where the frog stands, targets one jump distance up, starts now and is due 0.25 seconds later |
| Jumping.StartPendingJump | burpeefrog/main.py:545-553 | a pending request starts a jump only when none is in flight; otherwise the frog is unchanged |
| Jumping.AdvanceJump | burpeefrog/main.py:556-570 | once the jump is due the frog lands on the target and the jump ends; before that the frog stays at the origin's x and its y is the origin's y minus 156 pixels per second elapsed since the start (one jump distance of 39 pixels over the 0.25-second duration), which keeps it strictly below the target and no higher than the origin |
| Jumping.JumpBeginsAtOrigin | burpeefrog/main.py:561-570 | at the start time the frog is still at the origin |
| Jumping.JumpRisesMonotonically | burpeefrog/main.py:556-570 | later times never place the frog lower, and x stays the origin's |
| Game.InitialLanes | burpeefrog/main.py:295-309 | the start lanes are 13 empty lanes in the fixed pattern of kinds |
| Game.Initial | burpeefrog/main.py:288-314 | definition: the start state has no quit, start and clock at `gameStart`, no outcome, no recorded buttons, no pending jump, the start lanes and the frog at its start position with no jump; Game.InitialIsValid proves it satisfies the invariant |
| Game.InitialIsValid | burpeefrog/main.py:288-314 | the start state satisfies the invariant and the frog starts in lane 0 |
| Game.FrogBox | burpeefrog/main.py:585-588 | the frog's collision box spans its sprite inclusively, from (x, y) to (x + 25 − 1, y + 35 − 1), and is well formed |
| Game.MoverBox | burpeefrog/main.py:581-584 | a vehicle's collision box spans its sprite inclusively, from (x, y) to (x + width − 1, y + height − 1), and is well formed for a sprite of positive size |
| Game.Hits | burpeefrog/main.py:580-589 | definition: a vehicle hits the frog when the two collision boxes intersect, which by Geometry.IntersectIffCommonPoint means they share a point |
| Game.TrafficKeepsLanesWellFormed | burpeefrog/main.py:335-497 | a traffic step of either kind keeps the fixed pattern of lane kinds and sprites of positive size |
| Game.CrashEvents | burpeefrog/main.py:575-594 | the crash scan appends only crashes, at most one per vehicle, and at least one exactly when some vehicle of the lane hits the frog |
| Game.JumpStep | burpeefrog/main.py:545-570 | away from the goal the jump part of a tick keeps the frog inside the lanes, and a jump still in flight keeps its invariant |
| Game.AtGoal | burpeefrog/main.py:536-537 | definition: the frog is in the last lane, the goal |
| Game.StartKeepsInvariant | burpeefrog/main.py:545-553 | starting a pending jump away from the goal keeps the frog inside the lanes and gives a jump to the next lane |
| Game.AdvanceKeepsInvariant | burpeefrog/main.py:556-570 | advancing a jump in flight keeps the frog inside the lanes and a jump not yet due keeps its invariant |
| Game.DriveSpec | burpeefrog/main.py:545-594 | after the jump step and the vehicle step the frog is inside the lanes and its lane exists among the 13 |
| Game.DrowningEvents | burpeefrog/main.py:598-606 | definition: one drowning when the frog is not jumping, the lane it stood in before riding is a river lane, and no trunk carries it now; none otherwise |
| Game.OffSceneEvents | burpeefrog/main.py:608-612 | definition: one drowning when the frog's x is at least 448 or its x plus its width is below 0; none otherwise |
| Game.RideSpec | burpeefrog/main.py:596-612 | definition: the second half of a tick: the frog rides the trunk under it, the trunks take their step, then the river drowning check (on the lane the frog stood in before riding) and the off-scene check append their events |
| Game.TickSpec | burpeefrog/main.py:533-612 | definition: at the goal only the clock moves and one happy end is appended; otherwise the first half (Game.DriveSpec) then the second (Game.RideSpec), crashes before drownings; its properties are the Properties.Tick lemmas |
| Game.InGameStep | burpeefrog/main.py:500-617 | definition: a press goes through Combo.RecordPress and may append one jump request; a jump request sets the pending flag; a tick is Game.TickSpec; anything else changes nothing |
| Game.SoundFor | burpeefrog/main.py:640-645 | definition: the happy end plays the happy-end sound, a crash the squash sound, and drowning the drowning sound |
| Game.Step | burpeefrog/main.py:619-649 | definition: one dispatch consumes the front event; quit sets the flag, restart starts afresh, a game over is recorded with its sound only if none is recorded, and the rest goes to Game.InGameStep with its events appended at the back; its properties are the Properties.Step lemmas and Properties.FirstOutcomeWins |
| Properties.TickPreservesValid | burpeefrog/main.py:533-612 | a tick keeps the invariant, sets the clock to `now`, and leaves the quit flag, outcome, start time and button record alone |
| Properties.TickOnlyEndsGames | burpeefrog/main.py:533-612 | a tick announces exactly the happy end at the goal, and otherwise only crashes and drownings, with every crash before every drowning, so a crash and a drowning in the same tick record the crash |
| Properties.HappyEndShortCircuits | burpeefrog/main.py:533-543 | a tick at the goal appends exactly one happy end and changes only the clock |
| Properties.TicksIgnoreGameOver | burpeefrog/main.py:619-649 | ticks are not gated on a recorded outcome: traffic, frog and events are the same whatever the outcome |
| Properties.TickStartsPendingJump | burpeefrog/main.py:545-553 | a pending jump with none in flight starts at this tick from where the frog stands, to one lane up, due 0.25 seconds later; the request is consumed |
| Properties.TickAdvancesJumpInFlight | burpeefrog/main.py:545-570 | a jump in flight is never replaced and the request is dropped; the frog lands when the jump is due, and otherwise stays at the origin's x at the origin's y minus 156 pixels per second elapsed since the start |
| Properties.TickCrashes | burpeefrog/main.py:572-594 | a crash is announced exactly when the frog, after its jump step, is on a road and a vehicle of that road, after the vehicle step, hits it |
| Properties.TickDrowns | burpeefrog/main.py:596-612 | drowning is announced exactly when the frog, after riding, stands in the river on no trunk, or has left the scene on either side |
| Properties.TickRidesTrunkBeforeItMoves | burpeefrog/main.py:436-448 | the frog rides the trunk found at the positions before this tick's trunk move, shifting by its velocity horizontally only |
| Properties.StepPreservesValid | burpeefrog/main.py:619-649 | one dispatch keeps the invariant and never sets the clock past `now` |
| Properties.StepConsumesFront | burpeefrog/main.py:619-649 | one dispatch removes exactly the front event and only appends at the back: at most one jump request after a press, only game overs after a tick, nothing otherwise |
| Properties.NoRestartAppended | burpeefrog/main.py:500-649 | no dispatch puts a restart into the queue |
| Properties.StepKeepsOutcome | burpeefrog/main.py:633-647 | with no restart queued, a dispatch queues none, keeps a recorded outcome, and plays a sound only for the outcome it records |
| Properties.QuitSetsFlag | burpeefrog/main.py:625-627 | quit sets the flag and changes nothing else |
| Properties.RestartStartsAfresh | burpeefrog/main.py:629-631 | restart gives 13 empty lanes of the fixed kinds, the frog at its start with no jump, no recorded buttons, no pending jump and no outcome |
| Properties.FirstOutcomeWins | burpeefrog/main.py:633-647 | once an outcome is recorded, only a restart removes it, and no further sound plays |
| Properties.OutcomeRecordedWithItsSound | burpeefrog/main.py:633-647 | a sound plays exactly when a game over arrives while no outcome is recorded; that outcome is recorded and its own sound plays |
| Properties.WorkOfConcat | burpeefrog/main.py:914-917 | the number of presses and ticks in a queue adds up over concatenation |
| Properties.NoWorkInEndings | burpeefrog/main.py:914-917 | jump requests and game overs hold no presses and no ticks |
| Properties.StepMakesProgress | burpeefrog/main.py:914-917 | each dispatch either removes a press or a tick from the queue or shortens it without adding one, so draining ends |
| Properties.Drained | burpeefrog/main.py:914-917 | handling until the queue is empty, every event including those appended on the way going through one dispatch in queue order, ends in a valid state |
| Properties.DrainedUnfold | burpeefrog/main.py:916-917 | draining a non-empty queue is one dispatch, with its sound, followed by draining the queue it leaves |
| Properties.DrainKeepsOutcome | burpeefrog/main.py:633-647 | without a queued restart, draining keeps a recorded outcome and then plays nothing; it plays at most one sound, the one of the outcome it ends with |
| Engine.State.constructor | burpeefrog/main.py:283-285 | a new state is the start state |
| Engine.EventQueue.constructor | burpeefrog/main.py:874 | the queue starts empty |
| Engine.EventQueue.Append | burpeefrog/main.py:914 | appending puts the event at the back |
| Engine.EventQueue.PopFront | burpeefrog/main.py:507 | popping removes and returns the front event |
| Engine.InitializeState | burpeefrog/main.py:288-314 | every field is reset to the start state |
| Engine.StepTraffic | burpeefrog/main.py:337-387 | stepping the lanes one after the other, in place, yields the traffic step and changes no other field |
| Engine.StepOneLane | burpeefrog/main.py:337-387 | a lane of the kind being stepped takes one lane step, by the move and cull loops |
| Engine.UpdateVehicles | burpeefrog/main.py:335-387 | the vehicle lanes take one traffic step and nothing else changes |
| Engine.UpdateTrunksAndSailFrog | burpeefrog/main.py:436-497 | the frog rides its trunk at the positions before the move, then the river lanes take one traffic step |
| Engine.CheckCrashes | burpeefrog/main.py:575-594 | the scan appends one crash per hitting vehicle in lane order |
| Engine.JumpTheFrog | burpeefrog/main.py:545-570 | the pending request is consumed and the frog takes the jump step |
| Engine.CheckDrowning | burpeefrog/main.py:598-612 | the two drowning checks append their game overs in order |
| Engine.JumpAndDrive | burpeefrog/main.py:545-594 | the first half of a tick: jump step, vehicle step, crash scan in the frog's lane |
| Engine.RideAndDrown | burpeefrog/main.py:596-612 | the second half of a tick: the frog rides, the trunks step, and drowning is checked in the river and off the scene |
| Engine.PlayTick | burpeefrog/main.py:545-612 | a tick away from the goal, as a whole, matches the tick specification |
| Engine.HandleTick | burpeefrog/main.py:533-612 | the in-place tick leaves exactly the state and appended events of the tick specification |
| Engine.HandleButtonDown | burpeefrog/main.py:511-528 | the in-place press handling matches the recorded press and its jump request |
| Engine.HandleInGame | burpeefrog/main.py:500-617 | on an empty queue nothing changes; otherwise the front event is popped and the in-game step applied |
| Engine.Handle | burpeefrog/main.py:619-649 | one call leaves exactly the state, queue and sound of one dispatch |
| Engine.DispatchOne | burpeefrog/main.py:916-917 | one handled event leaves a valid state, less work in the queue, and a drain from here that completes the drain from before after the sound just played |
| Engine.Drain | burpeefrog/main.py:914-917 | the handling loop ends with an empty queue, and with exactly the final state and the sounds, in order, of Properties.Drained; the state is valid, and without a queued restart a recorded outcome stays and at most one sound plays, the one of the recorded outcome |

## Left out

- Media loading, sprites as images, fonts and sound playback are left out. They are pygame calls. A sprite is reduced to its width and height, and playback becomes the returned sound.
- Rendering, scaling of the scene to the window, argument parsing, joystick set-up, event polling and shutdown are left out. They are I/O only. Of the main loop only the drain until the queue is empty is modelled.
- `setup.py` and `dev_scripts/crop_frog.py` are not part of this model. They hold packaging metadata and image cropping.
- The clock and the random number generator are left out. The clock reading and the draws are parameters.
- The sprite lists from which a sprite is chosen are left out, and so is the trunk sprite width of 200. A draw carries any positive size, so the properties hold for every sprite.
- Floating-point rounding is left out. Positions and times are exact reals. The code only adds constants, compares and interpolates.
- Vehicles and trunks are values inside the lane lists, and the frog is a value inside the state. `main.py` updates these objects in place, but nothing else holds a reference to them, so the list or field is reassigned instead.
- Engine.Handle: requires the state invariant and a clock no earlier than the last tick. `handle` assumes both silently. The first holds for every state reached from the start state (Properties.StepPreservesValid). With the second, a jump is never seen before its start, so the frog stays inside the lanes and lane lookups never go out of range.
- Engine.Drain: the clock is a parameter that never runs backwards. The wall clock read by `main` gives no such guarantee.
