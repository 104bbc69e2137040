/** The entities of the game: movers, lanes, the jump and the frog, buttons and events. */
module Entities {
  import opened Wrappers
  import opened Scene

  /**
   * A vehicle or a trunk: its top-left corner, its signed velocity (negative
   * means leftwards) and the size of its sprite.
   */
  datatype Mover = Mover(x: real, y: real, velocity: real, width: int, height: int)

  /** Sprites have a positive size; this makes every bounding box well formed. */
  predicate WellSized(m: Mover) {
    m.width >= 1 && m.height >= 1
  }

  predicate AllWellSized(ms: seq<Mover>) {
    forall i :: 0 <= i < |ms| ==> WellSized(ms[i])
  }

  /** The three kinds of lanes; only vehicle and trunk lanes carry movers. */
  datatype Lane = MeadowLane | VehicleLane(vehicles: seq<Mover>) | TrunkLane(trunks: seq<Mover>)

  /** The kind of lane at each of the 13 positions: meadow, 5 roads, meadow, 5 river lanes, meadow. */
  datatype LaneKind = Meadow | Road | River

  function KindOf(lane: Lane): LaneKind {
    match lane
    case MeadowLane => Meadow
    case VehicleLane(_) => Road
    case TrunkLane(_) => River
  }

  function KindAt(i: int): LaneKind {
    if 1 <= i <= 5 then Road else if 7 <= i <= 11 then River else Meadow
  }

  function Movers(lane: Lane): seq<Mover> {
    match lane
    case MeadowLane => []
    case VehicleLane(vs) => vs
    case TrunkLane(ts) => ts
  }

  /** A jump of the frog one lane up, from `origin` to `target`, between two timestamps. */
  datatype Jump = Jump(originX: real, originY: real, targetX: real, targetY: real, start: real, eta: real)

  /** The invariants of a jump in flight: straight up by one lane, arriving after the fixed duration. */
  predicate WellFormedJump(j: Jump) {
    && j.targetX == j.originX
    && j.targetY == j.originY - JumpDistance as real
    && j.eta == j.start + JumpDuration
  }

  datatype Frog = Frog(x: real, y: real, jump: Option<Jump>)

  datatype Button = Cross | Circle | Square | Triangle | Up | Down | Left | Right

  /** The buttons that must all be pressed to make the frog jump. */
  const JumpButtons: set<Button> := {Cross, Circle, Square, Triangle}

  datatype GameOverKind = HappyEnd | Crash | Drowning

  datatype Event =
    | ButtonDown(button: Button)
    | ReceivedJump
    | Tick
    | ReceivedQuit
    | ReceivedRestart
    | GameOver(kind: GameOverKind)

  /** The sound effects played when the game ends. */
  datatype Sound = HappyEndSound | SquashSound | DrowningSound

  /**
   * The random choices of one lane for one tick: the size of the sprite that
   * `random.choice` picked, and the value of `random.random()`.
   */
  datatype Draw = Draw(width: int, height: int, fraction: real)

  predicate ValidDraw(d: Draw) {
    d.width >= 1 && d.height >= 1 && 0.0 <= d.fraction < 1.0
  }

  /** One draw per lane. */
  predicate ValidDraws(ds: seq<Draw>) {
    |ds| == LaneCount && forall i :: 0 <= i < |ds| ==> ValidDraw(ds[i])
  }
}
