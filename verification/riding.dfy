/** Log riding: which trunk, if any, carries the frog, and how it carries it. */
module Riding {
  import opened Wrappers
  import opened Scene
  import opened Entities

  /** The frog's horizontal span lies within the trunk's. */
  predicate OnTrunk(t: Mover, frogX: real) {
    t.x <= frogX && frogX + FrogWidth as real < t.x + t.width as real
  }

  /** The position of the first trunk that carries a frog at `frogX`. */
  function FirstCarrier(trunks: seq<Mover>, frogX: real): (r: Option<nat>)
    ensures r.Some? ==> r.value < |trunks| && OnTrunk(trunks[r.value], frogX)
    ensures r.Some? ==> forall j :: 0 <= j < r.value ==> !OnTrunk(trunks[j], frogX)
    ensures r.None? ==> forall j :: 0 <= j < |trunks| ==> !OnTrunk(trunks[j], frogX)
  {
    if trunks == [] then None
    else if OnTrunk(trunks[0], frogX) then Some(0)
    else match FirstCarrier(trunks[1..], frogX)
      case None => None
      case Some(k) => Some(k + 1)
  }

  /** The frog stands in a lane that the scene has. */
  predicate FrogLaneExists(frog: Frog, lanes: seq<Lane>) {
    frog.y <= SceneHeight as real && LaneIndexForY(frog.y) < |lanes|
  }

  function FrogLane(frog: Frog, lanes: seq<Lane>): Lane
    requires FrogLaneExists(frog, lanes)
  {
    lanes[LaneIndexForY(frog.y)]
  }

  /**
   * The trunk that carries the frog: none while the frog jumps or stands
   * outside the river, otherwise the first trunk of its lane that it stands
   * on entirely.
   */
  function TrunkUnderFrog(frog: Frog, lanes: seq<Lane>): (r: Option<Mover>)
    requires FrogLaneExists(frog, lanes)
    ensures frog.jump.Some? || !FrogLane(frog, lanes).TrunkLane? ==> r.None?
    ensures r.Some? ==> r.value in FrogLane(frog, lanes).trunks && OnTrunk(r.value, frog.x)
    ensures r.None? && frog.jump.None? && FrogLane(frog, lanes).TrunkLane? ==>
              forall t :: t in FrogLane(frog, lanes).trunks ==> !OnTrunk(t, frog.x)
  {
    var lane := FrogLane(frog, lanes);
    if frog.jump.Some? || !lane.TrunkLane? then None
    else match FirstCarrier(lane.trunks, frog.x)
      case None => None
      case Some(k) => Some(lane.trunks[k])
  }

  /** The frog after riding for one tick: a carried frog moves with its trunk. */
  function SailFrog(frog: Frog, lanes: seq<Lane>): (f: Frog)
    requires FrogLaneExists(frog, lanes)
    ensures f.y == frog.y && f.jump == frog.jump
    ensures TrunkUnderFrog(frog, lanes).None? ==> f.x == frog.x
    ensures TrunkUnderFrog(frog, lanes).Some? ==> f.x == frog.x + TrunkUnderFrog(frog, lanes).value.velocity
  {
    match TrunkUnderFrog(frog, lanes)
    case None => frog
    case Some(t) => frog.(x := frog.x + t.velocity)
  }

  /** The search of `find_trunk_on_which_frog`: scan the trunks of the frog's lane from the front. */
  method FindTrunkOnWhichFrog(frog: Frog, lanes: seq<Lane>) returns (trunk: Option<Mover>)
    requires FrogLaneExists(frog, lanes)
    ensures trunk == TrunkUnderFrog(frog, lanes)
  {
    if frog.jump.Some? {
      return None;
    }
    var frogLane := lanes[LaneIndexForY(frog.y)];
    if frogLane.TrunkLane? {
      var trunks := frogLane.trunks;
      var i := 0;
      while i < |trunks|
        invariant 0 <= i <= |trunks|
        invariant forall j :: 0 <= j < i ==> !OnTrunk(trunks[j], frog.x)
      {
        if trunks[i].x <= frog.x && frog.x + FrogWidth as real < trunks[i].x + trunks[i].width as real {
          FirstCarrierIsFirst(trunks, frog.x, i);
          return Some(trunks[i]);
        }
        i := i + 1;
      }
      assert FirstCarrier(trunks, frog.x).None?;
    }
    return None;
  }

  /** The first trunk found by a front-to-back scan is the one FirstCarrier names. */
  lemma FirstCarrierIsFirst(trunks: seq<Mover>, frogX: real, i: nat)
    requires i < |trunks| && OnTrunk(trunks[i], frogX)
    requires forall j :: 0 <= j < i ==> !OnTrunk(trunks[j], frogX)
    ensures FirstCarrier(trunks, frogX) == Some(i)
  {
  }
}
