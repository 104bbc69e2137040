/**
 * The game as a state machine over values: the state of the game, its
 * invariant, one tick of the simulation and one step of the event dispatcher.
 * The imperative engine is proved to follow these definitions.
 */
module Game {
  import opened Wrappers
  import opened Scene
  import opened Geometry
  import opened Entities
  import opened Traffic
  import opened Riding
  import opened Combo
  import opened Jumping

  /** The fields of the global game state. */
  datatype Snapshot = Snapshot(
    receivedQuit: bool,
    gameStart: real,
    now: real,
    gameOver: Option<GameOverKind>,
    jumpButtons: map<Button, real>,
    jumpPending: bool,
    lanes: seq<Lane>,
    frog: Frog)

  /** The 13 lanes: meadow, 5 roads, meadow, 5 river lanes, meadow; all empty. */
  function InitialLanes(): (lanes: seq<Lane>)
    ensures |lanes| == LaneCount
    ensures forall i :: 0 <= i < |lanes| ==> KindOf(lanes[i]) == KindAt(i) && Movers(lanes[i]) == []
  {
    [ MeadowLane,
      VehicleLane([]), VehicleLane([]), VehicleLane([]), VehicleLane([]), VehicleLane([]),
      MeadowLane,
      TrunkLane([]), TrunkLane([]), TrunkLane([]), TrunkLane([]), TrunkLane([]),
      MeadowLane ]
  }

  function Initial(gameStart: real): Snapshot {
    Snapshot(
      receivedQuit := false,
      gameStart := gameStart,
      now := gameStart,
      gameOver := None,
      jumpButtons := map[],
      jumpPending := false,
      lanes := InitialLanes(),
      frog := Frog(FrogStartX, FrogStartY, None))
  }

  /** The lanes keep the fixed pattern of kinds and every sprite has a positive size. */
  predicate LanesWellFormed(lanes: seq<Lane>) {
    && |lanes| == LaneCount
    && forall i :: 0 <= i < |lanes| ==>
         && KindOf(lanes[i]) == KindAt(i)
         && AllWellSized(Movers(lanes[i]))
  }

  /** A traffic step keeps the pattern of lane kinds and the sizes of the sprites. */
  lemma TrafficKeepsLanesWellFormed(lanes: seq<Lane>, draws: seq<Draw>, kind: MoverKind)
    requires LanesWellFormed(lanes) && ValidDraws(draws)
    ensures LanesWellFormed(TrafficStep(lanes, draws, kind))
  {
  }

  /** A jump in flight: well formed, started no later than `now`, from one lane to the next. */
  predicate JumpInvariant(j: Jump, now: real) {
    WellFormedJump(j) && j.start <= now && InLanes(j.originY) && InLanes(j.targetY)
  }

  /** The invariant of every reachable game state. */
  predicate ValidSnapshot(s: Snapshot) {
    && LanesWellFormed(s.lanes)
    && s.jumpButtons.Keys <= JumpButtons
    && InLanes(s.frog.y)
    && (s.frog.jump.Some? ==> JumpInvariant(s.frog.jump.value, s.now))
  }

  lemma InitialIsValid(gameStart: real)
    ensures ValidSnapshot(Initial(gameStart))
    ensures LaneIndexForY(Initial(gameStart).frog.y) == 0
  {
    FrogStartInFirstLane();
  }

  function FrogBox(frog: Frog): (b: Box)
    ensures WellFormed(b)
  {
    Box(frog.x, frog.y, frog.x + FrogWidth as real - 1.0, frog.y + FrogHeight as real - 1.0)
  }

  function MoverBox(m: Mover): (b: Box)
    requires WellSized(m)
    ensures WellFormed(b)
  {
    Box(m.x, m.y, m.x + m.width as real - 1.0, m.y + m.height as real - 1.0)
  }

  /** The vehicle and the frog overlap by at least one pixel. */
  predicate Hits(v: Mover, frog: Frog)
    requires WellSized(v)
  {
    Intersect(MoverBox(v), FrogBox(frog))
  }

  /** One crash for every vehicle that hits the frog, in the order of the lane. */
  function CrashEvents(vehicles: seq<Mover>, frog: Frog): (r: seq<Event>)
    requires AllWellSized(vehicles)
    ensures |r| <= |vehicles|
    ensures forall k :: 0 <= k < |r| ==> r[k] == GameOver(Crash)
    ensures r != [] <==> exists i :: 0 <= i < |vehicles| && Hits(vehicles[i], frog)
  {
    if vehicles == [] then []
    else
      var init := vehicles[..|vehicles| - 1];
      assert AllWellSized(init);
      var last := vehicles[|vehicles| - 1];
      var r := CrashEvents(init, frog) + (if Hits(last, frog) then [GameOver(Crash)] else []);
      assert (exists i :: 0 <= i < |vehicles| && Hits(vehicles[i], frog)) <==>
             (exists i :: 0 <= i < |init| && Hits(init[i], frog)) || Hits(last, frog) by {
        if exists i :: 0 <= i < |vehicles| && Hits(vehicles[i], frog) {
          var i :| 0 <= i < |vehicles| && Hits(vehicles[i], frog);
          if i < |init| {
            assert init[i] == vehicles[i];
          }
        }
        if exists i :: 0 <= i < |init| && Hits(init[i], frog) {
          var i :| 0 <= i < |init| && Hits(init[i], frog);
          assert vehicles[i] == init[i];
        }
      }
      r
  }

  /** The frog is in the goal lane, the last one. */
  predicate AtGoal(s: Snapshot)
    requires ValidSnapshot(s)
  {
    LaneIndexForY(s.frog.y) == |s.lanes| - 1
  }

  /**
   * The jump part of a tick that does not end at the goal: a pending jump
   * starts if none is in flight, then the jump in flight advances.  The frog
   * stays in the lanes and a jump still in flight keeps its invariant.
   */
  function JumpStep(s: Snapshot, now: real): (f: Frog)
    requires ValidSnapshot(s) && s.now <= now && !AtGoal(s)
    ensures InLanes(f.y)
    ensures f.jump.Some? ==> JumpInvariant(f.jump.value, now)
  {
    var started := StartPendingJump(s.frog, s.jumpPending, now);
    StartKeepsInvariant(s, now);
    AdvanceKeepsInvariant(started, now);
    AdvanceJump(started, now)
  }

  /** Starting a pending jump away from the goal keeps the frog and its jump within the lanes. */
  lemma StartKeepsInvariant(s: Snapshot, now: real)
    requires ValidSnapshot(s) && s.now <= now && !AtGoal(s)
    ensures var f := StartPendingJump(s.frog, s.jumpPending, now);
            InLanes(f.y) && (f.jump.Some? ==> JumpInvariant(f.jump.value, now))
  {
    if s.jumpPending && s.frog.jump.None? {
      JumpLandsInLanes(s.frog.y);
    }
  }

  /** Advancing a jump that keeps its invariant leaves the frog inside the lanes. */
  lemma AdvanceKeepsInvariant(frog: Frog, now: real)
    requires InLanes(frog.y) && (frog.jump.Some? ==> JumpInvariant(frog.jump.value, now))
    ensures var f := AdvanceJump(frog, now);
            InLanes(f.y) && (f.jump.Some? ==> JumpInvariant(f.jump.value, now))
  {
    if frog.jump.Some? && now < frog.jump.value.eta {
      assert AdvanceJump(frog, now).jump == frog.jump;
    }
  }

  /** Ends the game by drowning: standing in the river without a trunk underneath. */
  function DrowningEvents(frog: Frog, frogLane: Lane, lanes: seq<Lane>): seq<Event>
    requires FrogLaneExists(frog, lanes)
  {
    if frog.jump.None? && frogLane.TrunkLane? && TrunkUnderFrog(frog, lanes).None?
    then [GameOver(Drowning)] else []
  }

  /** Ends the game by drowning: carried out of the scene. */
  function OffSceneEvents(frog: Frog): seq<Event> {
    if frog.x >= SceneWidth as real || frog.x + FrogWidth as real < 0.0
    then [GameOver(Drowning)] else []
  }

  /**
   * The first half of a tick away from the goal: the jump step, the vehicle
   * step, and a crash for each vehicle of the frog's road that hits it.
   * The frog stays inside the lanes.
   */
  function DriveSpec(s: Snapshot, now: real, draws: seq<Draw>): (r: (Snapshot, seq<Event>))
    requires ValidSnapshot(s) && s.now <= now && ValidDraws(draws) && !AtGoal(s)
    ensures |r.0.lanes| == LaneCount && InLanes(r.0.frog.y) && FrogLaneExists(r.0.frog, r.0.lanes)
  {
    var frog1 := JumpStep(s, now);
    var lanes1 := TrafficStep(s.lanes, draws, Vehicles);
    var frogLane := FrogLane(frog1, lanes1);
    (s.(now := now, jumpPending := false, frog := frog1, lanes := lanes1),
     if frogLane.VehicleLane? then CrashEvents(frogLane.vehicles, frog1) else [])
  }

  /**
   * The second half: the frog rides its trunk, the trunks take their step,
   * and drowning is announced in the river without a trunk (judged on the
   * lane the frog stood in before riding) or off the scene.
   */
  function RideSpec(s: Snapshot, draws: seq<Draw>): (r: (Snapshot, seq<Event>))
    requires ValidDraws(draws) && |s.lanes| == LaneCount && FrogLaneExists(s.frog, s.lanes)
  {
    var frogLane := FrogLane(s.frog, s.lanes);
    var frog2 := SailFrog(s.frog, s.lanes);
    var lanes2 := TrafficStep(s.lanes, draws, Trunks);
    (s.(frog := frog2, lanes := lanes2),
     DrowningEvents(frog2, frogLane, lanes2) + OffSceneEvents(frog2))
  }

  /**
   * One tick.  At the goal only the clock moves and the happy end is
   * announced.  Otherwise, in this order: the jump step; the vehicle step;
   * a crash for each vehicle that hits the frog in its lane; the frog rides
   * its trunk and the trunk step follows; drowning in the river; drowning
   * off the scene.  Returns the new state and the events to append.
   */
  function TickSpec(s: Snapshot, now: real, draws: seq<Draw>): (r: (Snapshot, seq<Event>))
    requires ValidSnapshot(s) && s.now <= now && ValidDraws(draws)
  {
    if AtGoal(s) then (s.(now := now), [GameOver(HappyEnd)])
    else
      var (s1, crashes) := DriveSpec(s, now, draws);
      var (s2, drowned) := RideSpec(s1, draws);
      (s2, crashes + drowned)
  }

  /** An event other than quit, restart and game over, handled by the game itself. */
  function InGameStep(s: Snapshot, event: Event, now: real, draws: seq<Draw>): (r: (Snapshot, seq<Event>))
    requires ValidSnapshot(s) && s.now <= now && ValidDraws(draws)
  {
    match event
    case ButtonDown(button) =>
      var (buttons, jump) := RecordPress(s.jumpButtons, button, now);
      (s.(jumpButtons := buttons), if jump then [ReceivedJump] else [])
    case ReceivedJump => (s.(jumpPending := true), [])
    case Tick => TickSpec(s, now, draws)
    case _ => (s, [])
  }

  function SoundFor(kind: GameOverKind): Sound {
    match kind
    case HappyEnd => HappyEndSound
    case Crash => SquashSound
    case Drowning => DrowningSound
  }

  /** The result of one dispatch: the new state, the new queue and the sound played, if any. */
  datatype StepResult = StepResult(state: Snapshot, queue: seq<Event>, sound: Option<Sound>)

  /**
   * One dispatch: consume the front event.  Quit sets the flag, restart
   * starts afresh, a game over is recorded only if none was, and the rest
   * goes to the game, whose new events go to the back of the queue.
   */
  function Step(s: Snapshot, queue: seq<Event>, now: real, draws: seq<Draw>): StepResult
    requires ValidSnapshot(s) && s.now <= now && ValidDraws(draws)
  {
    if queue == [] then StepResult(s, queue, None)
    else match queue[0]
      case ReceivedQuit => StepResult(s.(receivedQuit := true), queue[1..], None)
      case ReceivedRestart => StepResult(Initial(now), queue[1..], None)
      case GameOver(kind) =>
        if s.gameOver.None? then StepResult(s.(gameOver := Some(kind)), queue[1..], Some(SoundFor(kind)))
        else StepResult(s, queue[1..], None)
      case _ =>
        var (s', appended) := InGameStep(s, queue[0], now, draws);
        StepResult(s', queue[1..] + appended, None)
  }
}
