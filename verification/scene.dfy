/**
 * Scene geometry of the game: the fixed screen, its 13 horizontal lanes, the
 * frog sprite size, the jump and the traffic speeds.  Positions are in pixels
 * with y growing downwards, so lane 0 is the bottom meadow.
 */
module Scene {
  const SceneWidth: int := 448
  const SceneHeight: int := 510
  const LaneCount: int := 13
  const LaneHeight: int := SceneHeight / LaneCount

  /** Pixels a vehicle moves per tick, to the right when positive. */
  const VehicleVelocity: real := 0.06
  /** Pixels a trunk moves per tick, to the right when positive. */
  const TrunkVelocity: real := 0.06

  const FrogWidth: int := 25
  const FrogHeight: int := 35

  /** The frog starts horizontally centred, vertically centred in the bottom lane. */
  const FrogStartX: real := SceneWidth as real / 2.0 - FrogWidth as real / 2.0
  const FrogStartY: real :=
    (SceneHeight - LaneHeight) as real + (LaneHeight - FrogHeight) as real / 2.0

  /** A jump lifts the frog by exactly one lane. */
  const JumpDistance: int := LaneHeight
  /** Seconds a jump is in flight. */
  const JumpDuration: real := 0.25

  /** Seconds within which all four jump buttons must be pressed. */
  const ComboTolerance: real := 1.25

  /** The y coordinates that lie in one of the lanes (the scene minus a 3-pixel strip on top). */
  predicate InLanes(y: real) {
    (SceneHeight - LaneCount * LaneHeight) as real < y <= SceneHeight as real
  }

  /**
   * The lane a y coordinate falls into.  `lane_index_for_y` truncates the distance
   * from the bottom with `int()` before the floor division; for y at most the
   * scene height that distance is not negative, so truncation is the floor.
   * The result identifies the band of the lane: lane r covers the distances
   * from the bottom in [r * LaneHeight, (r + 1) * LaneHeight).
   */
  function LaneIndexForY(y: real): (r: int)
    requires y <= SceneHeight as real
    ensures 0 <= r
    ensures (r * LaneHeight) as real <= SceneHeight as real - y < ((r + 1) * LaneHeight) as real
    ensures r < LaneCount <==> InLanes(y)
  {
    var d := SceneHeight as real - y;
    var f := d.Floor;
    assert f as real <= d < f as real + 1.0;
    assert 0 <= f;
    assert LaneHeight == 39;
    var r := f / LaneHeight;
    assert r * LaneHeight <= f < (r + 1) * LaneHeight;
    assert r < LaneCount <==> f < LaneCount * LaneHeight;
    assert f < LaneCount * LaneHeight <==> d < (LaneCount * LaneHeight) as real;
    r
  }

  /** Below the last lane, a jump of one lane height still lands inside the lanes. */
  lemma JumpLandsInLanes(y: real)
    requires InLanes(y) && LaneIndexForY(y) < LaneCount - 1
    ensures InLanes(y - JumpDistance as real)
  {
    var r := LaneIndexForY(y);
    assert ((r + 1) * LaneHeight) as real <= 468.0;
  }

  /** The start position lies in the bottom lane. */
  lemma FrogStartInFirstLane()
    ensures InLanes(FrogStartY)
    ensures LaneIndexForY(FrogStartY) == 0
  {
    var r := LaneIndexForY(FrogStartY);
    assert FrogStartY == 473.0;
    assert (r * LaneHeight) as real <= 37.0;
  }
}
