/**
 * The engine as `main.py` runs it: a mutable game state and a mutable
 * event queue, updated in place by the handlers.  Every handler is proved
 * to follow the value-level definitions of module Game.
 */
module Engine {
  import opened Wrappers
  import opened Scene
  import opened Entities
  import opened Traffic
  import opened Riding
  import opened Combo
  import opened Jumping
  import opened Game
  import opened Properties

  /** The global game state. */
  class State {
    var receivedQuit: bool
    var gameStart: real
    var now: real
    var gameOver: Option<GameOverKind>
    var jumpButtons: map<Button, real>
    var jumpPending: bool
    var lanes: seq<Lane>
    var frog: Frog

    /** The state as a value. */
    function Value(): Snapshot
      reads this
    {
      Snapshot(receivedQuit, gameStart, now, gameOver, jumpButtons, jumpPending, lanes, frog)
    }

    constructor(gameStart: real)
      ensures Value() == Initial(gameStart)
    {
      new;
      InitializeState(this, gameStart);
    }
  }

  /** The queue of events still to be handled, front first. */
  class EventQueue {
    var events: seq<Event>

    constructor()
      ensures events == []
    {
      events := [];
    }

    method Append(e: Event)
      modifies this
      ensures events == old(events) + [e]
    {
      events := events + [e];
    }

    method PopFront() returns (e: Event)
      requires events != []
      modifies this
      ensures e == old(events)[0] && events == old(events)[1..]
    {
      e := events[0];
      events := events[1..];
    }
  }

  /** Resets the state to the start of a game that begins at `gameStart`. */
  method InitializeState(state: State, gameStart: real)
    modifies state
    ensures state.Value() == Initial(gameStart)
  {
    state.receivedQuit := false;
    state.gameStart := gameStart;
    state.now := gameStart;
    state.gameOver := None;
    state.lanes := [
      MeadowLane,
      VehicleLane([]), VehicleLane([]), VehicleLane([]), VehicleLane([]), VehicleLane([]),
      MeadowLane,
      TrunkLane([]), TrunkLane([]), TrunkLane([]), TrunkLane([]), TrunkLane([]),
      MeadowLane ];
    state.frog := Frog(FrogStartX, FrogStartY, None);
    state.jumpButtons := map[];
    state.jumpPending := false;
  }

  /** Steps every lane carrying movers of `kind`, one lane after the other, and nothing else. */
  method StepTraffic(state: State, draws: seq<Draw>, kind: MoverKind)
    requires ValidDraws(draws) && |state.lanes| == LaneCount
    modifies state
    ensures state.Value() == old(state.Value()).(lanes := TrafficStep(old(state.lanes), draws, kind))
  {
    var i := 0;
    while i < |state.lanes|
      invariant 0 <= i <= |state.lanes| == |old(state.lanes)|
      invariant state.Value() == old(state.Value()).(lanes := state.lanes)
      invariant forall j :: 0 <= j < i ==>
                  state.lanes[j] == StepLaneOfKind(j, old(state.lanes)[j], draws[j], kind)
      invariant forall j :: i <= j < |state.lanes| ==> state.lanes[j] == old(state.lanes)[j]
    {
      if Carries(state.lanes[i], kind) {
        var lane := StepOneLane(i, state.lanes[i], draws[i], kind);
        state.lanes := state.lanes[i := lane];
      }
      i := i + 1;
    }
    assert state.lanes == TrafficStep(old(state.lanes), draws, kind);
  }

  /** One lane of the lanes of `kind`: its movers take one lane step, in place of the old list. */
  method StepOneLane(laneIndex: nat, lane: Lane, draw: Draw, kind: MoverKind) returns (r: Lane)
    requires ValidDraw(draw) && Carries(lane, kind)
    ensures r == StepLaneOfKind(laneIndex, lane, draw, kind)
  {
    match lane {
      case VehicleLane(vehicles) =>
        var updated := StepLane(laneIndex, vehicles, draw, kind);
        r := VehicleLane(updated);
      case TrunkLane(trunks) =>
        var updated := StepLane(laneIndex, trunks, draw, kind);
        r := TrunkLane(updated);
    }
  }

  /** Moves the vehicles, culls those that left and spawns new ones. */
  method UpdateVehicles(state: State, draws: seq<Draw>)
    requires ValidDraws(draws) && |state.lanes| == LaneCount
    modifies state
    ensures state.Value() == old(state.Value()).(lanes := TrafficStep(old(state.lanes), draws, Vehicles))
  {
    StepTraffic(state, draws, Vehicles);
  }

  /** The frog rides its trunk, then the trunks move, are culled and spawned. */
  method UpdateTrunksAndSailFrog(state: State, draws: seq<Draw>)
    requires ValidDraws(draws) && |state.lanes| == LaneCount
    requires FrogLaneExists(state.frog, state.lanes)
    modifies state
    ensures state.Value() == old(state.Value()).(
              frog := SailFrog(old(state.frog), old(state.lanes)),
              lanes := TrafficStep(old(state.lanes), draws, Trunks))
  {
    var trunk := FindTrunkOnWhichFrog(state.frog, state.lanes);
    if trunk.Some? {
      state.frog := state.frog.(x := state.frog.x + trunk.value.velocity);
    }
    StepTraffic(state, draws, Trunks);
  }

  /** A crash for every vehicle of `vehicles` that hits the frog, appended in the order of the lane. */
  method CheckCrashes(vehicles: seq<Mover>, frog: Frog, queue: EventQueue)
    requires AllWellSized(vehicles)
    modifies queue
    ensures queue.events == old(queue.events) + CrashEvents(vehicles, frog)
  {
    var k := 0;
    while k < |vehicles|
      invariant 0 <= k <= |vehicles|
      invariant AllWellSized(vehicles[..k])
      invariant queue.events == old(queue.events) + CrashEvents(vehicles[..k], frog)
    {
      assert vehicles[..k + 1][..k] == vehicles[..k];
      var v := vehicles[k];
      if Hits(v, frog) {
        queue.Append(GameOver(Crash));
      }
      k := k + 1;
    }
    assert vehicles[..k] == vehicles;
  }

  /** Starts a pending jump unless one is in flight, then advances the jump in flight. */
  method JumpTheFrog(state: State, now: real)
    requires state.frog.jump.Some? ==> WellFormedJump(state.frog.jump.value)
    modifies state
    ensures state.Value() == old(state.Value()).(
              jumpPending := false,
              frog := AdvanceJump(StartPendingJump(old(state.frog), old(state.jumpPending), now), now))
  {
    if state.jumpPending {
      if state.frog.jump.None? {
        var f := state.frog;
        state.frog := f.(jump := Some(Jump(f.x, f.y, f.x, f.y - JumpDistance as real, now, now + JumpDuration)));
      }
      state.jumpPending := false;
    }

    if state.frog.jump.Some? {
      var j := state.frog.jump.value;
      if now >= j.eta {
        state.frog := Frog(j.targetX, j.targetY, None);
      } else {
        var pixelsJumped := ((now - j.start) / (j.eta - j.start)) * JumpDistance as real;
        state.frog := Frog(j.originX, j.originY - pixelsJumped, state.frog.jump);
      }
    }
  }

  /** The drowning checks that close a tick: in the river without a trunk, or carried off the scene. */
  method CheckDrowning(state: State, frogLane: Lane, queue: EventQueue)
    requires FrogLaneExists(state.frog, state.lanes)
    modifies queue
    ensures queue.events == old(queue.events) + DrowningEvents(state.frog, frogLane, state.lanes)
                                              + OffSceneEvents(state.frog)
  {
    // Drowning in the river
    if state.frog.jump.None? && frogLane.TrunkLane? {
      var trunk := FindTrunkOnWhichFrog(state.frog, state.lanes);
      if trunk.None? {
        queue.Append(GameOver(Drowning));
      }
    }

    // Drowning off the scene
    if state.frog.x >= SceneWidth as real || state.frog.x + FrogWidth as real < 0.0 {
      queue.Append(GameOver(Drowning));
    }
  }

  /** A tick, as `handle_in_game` handles it. */
  method HandleTick(state: State, queue: EventQueue, now: real, draws: seq<Draw>)
    requires ValidSnapshot(state.Value()) && state.now <= now && ValidDraws(draws)
    modifies state, queue
    ensures state.Value() == TickSpec(old(state.Value()), now, draws).0
    ensures queue.events == old(queue.events) + TickSpec(old(state.Value()), now, draws).1
  {
    ghost var s := state.Value();
    state.now := now;

    var frogLaneIndex := LaneIndexForY(state.frog.y);
    if frogLaneIndex == |state.lanes| - 1 {
      queue.Append(GameOver(HappyEnd));
      return;
    }

    PlayTick(state, queue, now, draws, s);
  }

  /**
   * The rest of a tick away from the goal, once the clock is set: the jump,
   * the vehicles and the crashes, then the trunks with the frog riding and
   * the drowning.
   */
  method PlayTick(state: State, queue: EventQueue, now: real, draws: seq<Draw>, ghost s: Snapshot)
    requires ValidSnapshot(s) && s.now <= now && ValidDraws(draws) && !AtGoal(s)
    requires state.Value() == s.(now := now)
    modifies state, queue
    ensures state.Value() == TickSpec(s, now, draws).0
    ensures queue.events == old(queue.events) + TickSpec(s, now, draws).1
  {
    var frogLane := JumpAndDrive(state, queue, now, draws, s);
    RideAndDrown(state, queue, frogLane, draws);
  }

  /** The first half of a tick away from the goal: the jump, the vehicles and the crashes. */
  method JumpAndDrive(state: State, queue: EventQueue, now: real, draws: seq<Draw>, ghost s: Snapshot)
    returns (frogLane: Lane)
    requires ValidSnapshot(s) && s.now <= now && ValidDraws(draws) && !AtGoal(s)
    requires state.Value() == s.(now := now)
    modifies state, queue
    ensures state.Value() == DriveSpec(s, now, draws).0
    ensures frogLane == FrogLane(state.frog, state.lanes)
    ensures queue.events == old(queue.events) + DriveSpec(s, now, draws).1
  {
    JumpTheFrog(state, now);
    ghost var frog1 := JumpStep(s, now);
    assert state.frog == frog1;
    UpdateVehicles(state, draws);
    ghost var lanes1 := TrafficStep(s.lanes, draws, Vehicles);
    assert state.lanes == lanes1;

    // Crashes with the vehicles of the frog's lane
    var frogLaneIndex := LaneIndexForY(state.frog.y);
    frogLane := state.lanes[frogLaneIndex];
    assert AllWellSized(Movers(lanes1[frogLaneIndex]));
    if frogLane.VehicleLane? {
      CheckCrashes(frogLane.vehicles, state.frog, queue);
    }
  }

  /** The second half of a tick away from the goal: the frog rides, the trunks move, drowning is checked. */
  method RideAndDrown(state: State, queue: EventQueue, frogLane: Lane, draws: seq<Draw>)
    requires ValidDraws(draws) && |state.lanes| == LaneCount && FrogLaneExists(state.frog, state.lanes)
    requires frogLane == FrogLane(state.frog, state.lanes)
    modifies state, queue
    ensures state.Value() == RideSpec(old(state.Value()), draws).0
    ensures queue.events == old(queue.events) + RideSpec(old(state.Value()), draws).1
  {
    UpdateTrunksAndSailFrog(state, draws);
    CheckDrowning(state, frogLane, queue);
  }

  /** A press of a button: combo buttons are recorded, and a complete combo requests a jump. */
  method HandleButtonDown(state: State, queue: EventQueue, button: Button, now: real)
    requires state.jumpButtons.Keys <= JumpButtons
    modifies state, queue
    ensures var (buttons, jump) := RecordPress(old(state.jumpButtons), button, now);
            && state.Value() == old(state.Value()).(jumpButtons := buttons)
            && queue.events == old(queue.events) + (if jump then [ReceivedJump] else [])
  {
    if button !in JumpButtons {
      return;
    }

    state.jumpButtons := state.jumpButtons[button := now];

    // Check whether all combo buttons were pressed together
    if JumpButtons <= state.jumpButtons.Keys {
      var delta := Latest(state.jumpButtons) - Earliest(state.jumpButtons);
      if delta < ComboTolerance {
        queue.Append(ReceivedJump);
        state.jumpButtons := map[];
      }
    }
  }

  /** Consumes the front event during the game. */
  method HandleInGame(state: State, queue: EventQueue, now: real, draws: seq<Draw>)
    requires ValidSnapshot(state.Value()) && state.now <= now && ValidDraws(draws)
    modifies state, queue
    ensures old(queue.events) == [] ==> state.Value() == old(state.Value()) && queue.events == []
    ensures old(queue.events) != [] ==>
              var (s', appended) := InGameStep(old(state.Value()), old(queue.events)[0], now, draws);
              state.Value() == s' && queue.events == old(queue.events)[1..] + appended
  {
    if |queue.events| == 0 {
      return;
    }

    var event := queue.PopFront();

    match event
    case ButtonDown(button) =>
      HandleButtonDown(state, queue, button, now);
    case ReceivedJump =>
      state.jumpPending := true;
    case Tick =>
      HandleTick(state, queue, now, draws);
    case _ =>
  }

  /** Consumes the front event and returns the sound it plays, if any. */
  method Handle(state: State, queue: EventQueue, now: real, draws: seq<Draw>) returns (sound: Option<Sound>)
    requires ValidSnapshot(state.Value()) && state.now <= now && ValidDraws(draws)
    modifies state, queue
    ensures var o := Step(old(state.Value()), old(queue.events), now, draws);
            state.Value() == o.state && queue.events == o.queue && sound == o.sound
  {
    sound := None;
    if |queue.events| == 0 {
      return;
    }

    match queue.events[0]
    case ReceivedQuit =>
      var _ := queue.PopFront();
      state.receivedQuit := true;
    case ReceivedRestart =>
      var _ := queue.PopFront();
      InitializeState(state, now);
    case GameOver(kind) =>
      var _ := queue.PopFront();
      if state.gameOver.None? {
        state.gameOver := Some(kind);
        sound := Some(SoundFor(kind));
      }
    case _ =>
      HandleInGame(state, queue, now, draws);
  }

  /**
   * Handles events until the queue is empty, as the main loop does after
   * each frame.  `clock(n)` is the time read by the n-th dispatch and
   * `draws(n)` the random draws it makes; the clock never runs backwards.
   * The loop ends with the state and the sounds of `Drained`: every queued
   * event, and every event appended on the way, handled by one dispatch in
   * queue order.  The state stays valid, and without a restart in the queue
   * a recorded outcome stays and at most one outcome sound plays.
   */
  method Drain(state: State, queue: EventQueue, clock: nat -> real, draws: nat -> seq<Draw>)
    returns (sounds: seq<Sound>)
    requires ValidSnapshot(state.Value()) && state.now <= clock(0)
    requires forall m: nat, m': nat :: m <= m' ==> clock(m) <= clock(m')
    requires forall n: nat :: ValidDraws(draws(n))
    modifies state, queue
    ensures queue.events == []
    ensures ValidSnapshot(state.Value())
    ensures state.Value() == Drained(old(state.Value()), old(queue.events), clock, draws, 0).0
    ensures sounds == Drained(old(state.Value()), old(queue.events), clock, draws, 0).1
    ensures ReceivedRestart !in old(queue.events) ==>
              && (old(state.gameOver).Some? ==> state.gameOver == old(state.gameOver) && sounds == [])
              && |sounds| <= 1
              && (sounds != [] ==> state.gameOver.Some? && sounds == [SoundFor(state.gameOver.value)])
  {
    sounds := [];
    var n: nat := 0;
    ghost var final := Drained(state.Value(), queue.events, clock, draws, 0);
    if ReceivedRestart !in queue.events {
      DrainKeepsOutcome(state.Value(), queue.events, clock, draws, 0);
    }
    while |queue.events| > 0
      invariant ValidSnapshot(state.Value()) && state.now <= clock(n)
      invariant Drained(state.Value(), queue.events, clock, draws, n).0 == final.0
      invariant sounds + Drained(state.Value(), queue.events, clock, draws, n).1 == final.1
      decreases Work(queue.events), |queue.events|
    {
      var sound := DispatchOne(state, queue, clock, draws, n);
      ghost var played := if sound.Some? then [sound.value] else [];
      ConcatAssociates(sounds, played, Drained(state.Value(), queue.events, clock, draws, n + 1).1);
      if sound.Some? {
        sounds := sounds + [sound.value];
      } else {
        assert sounds + played == sounds;
      }
      n := n + 1;
    }
  }

  /**
   * One dispatch of the drain: the front event is handled with the time and
   * the draws of dispatch `n`, and draining from here gives what draining
   * from before gave, after the sound just played.
   */
  method DispatchOne(state: State, queue: EventQueue, clock: nat -> real, draws: nat -> seq<Draw>, n: nat)
    returns (sound: Option<Sound>)
    requires ValidSnapshot(state.Value()) && state.now <= clock(n)
    requires forall m: nat, m': nat :: m <= m' ==> clock(m) <= clock(m')
    requires forall m: nat :: ValidDraws(draws(m))
    requires queue.events != []
    modifies state, queue
    ensures ValidSnapshot(state.Value()) && state.now <= clock(n + 1)
    ensures Work(queue.events) < Work(old(queue.events)) ||
            (Work(queue.events) == Work(old(queue.events)) && |queue.events| < |old(queue.events)|)
    ensures Drained(state.Value(), queue.events, clock, draws, n + 1).0 ==
            Drained(old(state.Value()), old(queue.events), clock, draws, n).0
    ensures (if sound.Some? then [sound.value] else []) + Drained(state.Value(), queue.events, clock, draws, n + 1).1 ==
            Drained(old(state.Value()), old(queue.events), clock, draws, n).1
  {
    ghost var s := state.Value();
    ghost var q := queue.events;
    StepMakesProgress(s, q, clock(n), draws(n));
    DrainedUnfold(s, q, clock, draws, n);
    sound := Handle(state, queue, clock(n), draws(n));
  }

}
