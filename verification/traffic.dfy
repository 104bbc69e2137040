/**
 * The traffic of the road and river lanes: once per tick every mover advances
 * by its velocity, movers that left the scene are culled, and at most one new
 * mover enters at the edge it comes from.
 */
module Traffic {
  import opened Scene
  import opened Entities

  /** Vehicles and trunks differ only in speed and in the spread of their entry point. */
  datatype MoverKind = Vehicles | Trunks

  function Speed(kind: MoverKind): real {
    if kind == Vehicles then VehicleVelocity else TrunkVelocity
  }

  /** The mover after one tick of motion. */
  function Advanced(m: Mover): Mover {
    m.(x := m.x + m.velocity)
  }

  function MoveAll(ms: seq<Mover>): (r: seq<Mover>)
    ensures AllWellSized(ms) ==> AllWellSized(r)
  {
    seq(|ms|, i requires 0 <= i < |ms| => Advanced(ms[i]))
  }

  /** A mover has left the scene past the edge it travels towards. */
  predicate Exited(m: Mover) {
    || (m.velocity >= 0.0 && m.x >= SceneWidth as real)
    || (m.velocity < 0.0 && m.x + m.width as real < 0.0)
  }

  /** The movers that stay, in their order. */
  function Survivors(ms: seq<Mover>): (r: seq<Mover>)
    ensures AllWellSized(ms) ==> AllWellSized(r)
  {
    if ms == [] then []
    else
      assert AllWellSized(ms) ==> AllWellSized(ms[..|ms| - 1]);
      Survivors(ms[..|ms| - 1]) + (if Exited(ms[|ms| - 1]) then [] else [ms[|ms| - 1]])
  }

  /** The positions of the movers that stay. */
  function KeptIndices(ms: seq<Mover>): seq<nat> {
    if ms == [] then []
    else KeptIndices(ms[..|ms| - 1]) + (if Exited(ms[|ms| - 1]) then [] else [|ms| - 1])
  }

  /** A lane receives a new mover when it is empty or when one of its movers left. */
  predicate NeedsSpawn(ms: seq<Mover>) {
    |ms| == 0 || exists i :: 0 <= i < |ms| && Exited(ms[i])
  }

  /** Top edge of lane `laneIndex` on the screen. */
  function LaneTop(laneIndex: int): int {
    SceneHeight - (laneIndex + 1) * LaneHeight
  }

  /**
   * The mover that enters lane `laneIndex`: rightwards in even lanes,
   * leftwards in odd ones, just outside the edge it comes from (less than
   * its own width off for a vehicle, less than 20 px for a trunk), vertically
   * centred in the lane.
   */
  function Spawned(laneIndex: nat, draw: Draw, kind: MoverKind): (m: Mover)
    requires ValidDraw(draw)
    ensures WellSized(m) && m.width == draw.width && m.height == draw.height
    ensures m.velocity >= 0.0 <==> laneIndex % 2 == 0
    ensures m.velocity == Speed(kind) || m.velocity == -Speed(kind)
    ensures m.velocity >= 0.0 ==> m.x + m.width as real <= 0.0
    ensures m.velocity < 0.0 ==> m.x >= SceneWidth as real
    ensures var spread := if kind == Vehicles then m.width as real else 20.0;
            && (m.velocity >= 0.0 ==> -spread < m.x + m.width as real)
            && (m.velocity < 0.0 ==> m.x < SceneWidth as real + spread)
    ensures var above := m.y - LaneTop(laneIndex) as real;
            var below := (LaneTop(laneIndex) + LaneHeight) as real - (m.y + m.height as real);
            0.0 <= below - above <= 1.0
  {
    var velocity := if laneIndex % 2 == 0 then Speed(kind) else -Speed(kind);
    var y := (LaneTop(laneIndex) + (LaneHeight - draw.height) / 2) as real;
    var spread := if kind == Vehicles then draw.width as real else 20.0;
    Mover(EntryX(velocity >= 0.0, draw.width, draw.fraction, spread), y, velocity, draw.width, draw.height)
  }

  /**
   * The x at which a mover of the given width enters: a random fraction of
   * `spread` beyond the left edge when it moves right, beyond the right edge
   * otherwise.
   */
  function EntryX(rightwards: bool, width: int, fraction: real, spread: real): (x: real)
    requires 0.0 <= fraction < 1.0 && spread > 0.0
    ensures rightwards ==> -spread < x + width as real <= 0.0
    ensures !rightwards ==> SceneWidth as real <= x < SceneWidth as real + spread
  {
    assert 0.0 <= fraction * spread < spread by {
      assert spread - fraction * spread == (1.0 - fraction) * spread;
    }
    if rightwards then -width as real - fraction * spread
    else SceneWidth as real + fraction * spread
  }

  /** One tick of one lane: move, cull, and spawn at the leading edge. */
  function LaneStep(laneIndex: nat, ms: seq<Mover>, draw: Draw, kind: MoverKind): (r: seq<Mover>)
    requires ValidDraw(draw)
    ensures AllWellSized(ms) ==> AllWellSized(r)
  {
    var moved := MoveAll(ms);
    var kept := Survivors(moved);
    if !NeedsSpawn(moved) then kept
    else
      var entering := Spawned(laneIndex, draw, kind);
      if entering.velocity >= 0.0 then [entering] + kept else kept + [entering]
  }

  /**
   * The survivors are exactly the movers that did not exit, picked out in
   * their original order.
   */
  lemma {:induction false} SurvivorsSelect(ms: seq<Mover>)
    ensures var kept := KeptIndices(ms);
      && |kept| == |Survivors(ms)|
      && (forall k :: 0 <= k < |kept| ==> kept[k] < |ms| && Survivors(ms)[k] == ms[kept[k]])
      && (forall k, l :: 0 <= k < l < |kept| ==> kept[k] < kept[l])
      && (forall i :: 0 <= i < |ms| ==> (i in kept <==> !Exited(ms[i])))
  {
    if ms != [] {
      var init := ms[..|ms| - 1];
      var last := ms[|ms| - 1];
      SurvivorsSelect(init);
      assert forall i :: 0 <= i < |init| ==> init[i] == ms[i];
      var before := KeptIndices(init);
      assert |ms| - 1 !in before;
      if Exited(last) {
        assert KeptIndices(ms) == before && Survivors(ms) == Survivors(init);
      } else {
        assert KeptIndices(ms) == before + [|ms| - 1];
        assert Survivors(ms) == Survivors(init) + [last];
      }
    }
  }

  /** Without an exit nothing is culled. */
  lemma {:induction false} NoSpawnKeepsAll(ms: seq<Mover>)
    requires !NeedsSpawn(ms)
    ensures Survivors(ms) == ms
  {
    if |ms| > 1 {
      var init := ms[..|ms| - 1];
      assert forall i :: 0 <= i < |init| ==> init[i] == ms[i];
      NoSpawnKeepsAll(init);
    } else {
      assert !Exited(ms[0]);
    }
  }

  /** Positions, in the lane before the tick, of the movers that stay. */
  function Kept(ms: seq<Mover>): seq<nat> {
    KeptIndices(MoveAll(ms))
  }

  /** Where the movers that stay begin in the new lane: after a mover that entered from the left. */
  function Offset(laneIndex: nat, ms: seq<Mover>): nat {
    if NeedsSpawn(MoveAll(ms)) && laneIndex % 2 == 0 then 1 else 0
  }

  /**
   * The movers that stay in a lane after one tick: each has advanced by
   * exactly its own velocity and is otherwise unchanged, they keep their
   * order, and they are exactly the movers that did not leave the scene.
   */
  lemma LaneStepRetained(laneIndex: nat, ms: seq<Mover>, draw: Draw, kind: MoverKind)
    requires ValidDraw(draw)
    ensures |Kept(ms)| + Offset(laneIndex, ms) <= |LaneStep(laneIndex, ms, draw, kind)|
    ensures forall k :: 0 <= k < |Kept(ms)| ==>
              && Kept(ms)[k] < |ms|
              && LaneStep(laneIndex, ms, draw, kind)[k + Offset(laneIndex, ms)] == Advanced(ms[Kept(ms)[k]])
    ensures forall k, l :: 0 <= k < l < |Kept(ms)| ==> Kept(ms)[k] < Kept(ms)[l]
    ensures forall i :: 0 <= i < |ms| ==> (i in Kept(ms) <==> !Exited(Advanced(ms[i])))
  {
    var moved := MoveAll(ms);
    SurvivorsSelect(moved);
    var kept := KeptIndices(moved);
    assert kept == Kept(ms);
    var r := LaneStep(laneIndex, ms, draw, kind);
    var offset := Offset(laneIndex, ms);
    SurvivorsInLaneStep(laneIndex, ms, draw, kind);
    forall k | 0 <= k < |kept|
      ensures kept[k] < |ms| && r[k + offset] == Advanced(ms[kept[k]])
    {
      assert r[offset + k] == Survivors(moved)[k] == moved[kept[k]];
    }
    forall i | 0 <= i < |ms|
      ensures i in kept <==> !Exited(Advanced(ms[i]))
    {
      assert moved[i] == Advanced(ms[i]);
    }
  }

  lemma SurvivorsInLaneStep(laneIndex: nat, ms: seq<Mover>, draw: Draw, kind: MoverKind)
    requires ValidDraw(draw)
    ensures var r := LaneStep(laneIndex, ms, draw, kind);
            var survivors := Survivors(MoveAll(ms));
            && Offset(laneIndex, ms) + |survivors| <= |r|
            && forall k :: 0 <= k < |survivors| ==> r[Offset(laneIndex, ms) + k] == survivors[k]
  {
    var moved := MoveAll(ms);
    if NeedsSpawn(moved) {
      EnteringAtEdge(Spawned(laneIndex, draw, kind), Survivors(moved));
    }
  }

  /** A mover put in front shifts the others by one place; one put at the back shifts none. */
  lemma EnteringAtEdge(e: Mover, kept: seq<Mover>)
    ensures forall k :: 0 <= k < |kept| ==> ([e] + kept)[1 + k] == kept[k]
    ensures forall k :: 0 <= k < |kept| ==> (kept + [e])[k] == kept[k]
  {
  }

  /**
   * At most one mover enters a lane per tick; it enters exactly when the lane
   * was empty or a mover left; it goes in front when it comes from the left
   * (even lanes) and at the back when it comes from the right (odd lanes); an
   * empty lane ends with exactly the new mover.
   */
  lemma LaneStepSpawn(laneIndex: nat, ms: seq<Mover>, draw: Draw, kind: MoverKind)
    requires ValidDraw(draw)
    ensures |LaneStep(laneIndex, ms, draw, kind)| == |Kept(ms)| + (if NeedsSpawn(MoveAll(ms)) then 1 else 0)
    ensures |LaneStep(laneIndex, ms, draw, kind)| <= |ms| + 1
    ensures NeedsSpawn(MoveAll(ms)) <==> ms == [] || exists i :: 0 <= i < |ms| && Exited(Advanced(ms[i]))
    ensures ms == [] ==> LaneStep(laneIndex, ms, draw, kind) == [Spawned(laneIndex, draw, kind)]
    ensures NeedsSpawn(MoveAll(ms)) && laneIndex % 2 == 0 ==>
              LaneStep(laneIndex, ms, draw, kind)[0] == Spawned(laneIndex, draw, kind)
    ensures NeedsSpawn(MoveAll(ms)) && laneIndex % 2 == 1 ==>
              var r := LaneStep(laneIndex, ms, draw, kind); r[|r| - 1] == Spawned(laneIndex, draw, kind)
  {
    var moved := MoveAll(ms);
    SurvivorsSelect(moved);
    KeptIndicesBounded(moved);
    if NeedsSpawn(moved) && ms != [] {
      var i :| 0 <= i < |moved| && Exited(moved[i]);
      assert Exited(Advanced(ms[i]));
    }
    if ms != [] && (exists i :: 0 <= i < |ms| && Exited(Advanced(ms[i]))) {
      var i :| 0 <= i < |ms| && Exited(Advanced(ms[i]));
      assert Exited(moved[i]);
    }
  }

  lemma {:induction false} KeptIndicesBounded(ms: seq<Mover>)
    ensures |KeptIndices(ms)| <= |ms|
    ensures NeedsSpawn(ms) && ms != [] ==> |KeptIndices(ms)| < |ms|
  {
    if ms != [] {
      var init := ms[..|ms| - 1];
      KeptIndicesBounded(init);
      if NeedsSpawn(ms) && !Exited(ms[|ms| - 1]) {
        var i :| 0 <= i < |ms| && Exited(ms[i]);
        assert init[i] == ms[i];
        assert NeedsSpawn(init) && init != [];
      }
    }
  }

  /**
   * One tick of one lane, as `update_vehicles` runs it: advance every mover in
   * place, then rebuild the list from the movers that stay and, if one left
   * or the lane was empty, one new mover.
   */
  method StepLane(laneIndex: nat, movers: seq<Mover>, draw: Draw, kind: MoverKind)
    returns (updated: seq<Mover>)
    requires ValidDraw(draw)
    ensures updated == LaneStep(laneIndex, movers, draw, kind)
  {
    var moved := MoveMovers(movers);

    // Spawn and remove
    var spawn := false;
    updated := [];
    if |moved| == 0 {
      spawn := true;
    } else {
      updated, spawn := CullMovers(moved);
    }

    if spawn {
      var direction := if laneIndex % 2 == 0 then 1.0 else -1.0;
      var velocity := direction * Speed(kind);
      var y := (LaneTop(laneIndex) + (LaneHeight - draw.height) / 2) as real;
      var spread := if kind == Vehicles then draw.width as real else 20.0;
      if velocity >= 0.0 {
        var entering := Mover(-draw.width as real - draw.fraction * spread, y, velocity, draw.width, draw.height);
        assert entering == Spawned(laneIndex, draw, kind);
        updated := [entering] + updated;
      } else {
        var entering := Mover(SceneWidth as real + draw.fraction * spread, y, velocity, draw.width, draw.height);
        assert entering == Spawned(laneIndex, draw, kind);
        updated := updated + [entering];
      }
    } else if kind == Vehicles {
      // Vehicles are written back only after a spawn; otherwise the moved list stays.
      NoSpawnKeepsAll(moved);
      updated := moved;
    }
  }

  /** Advances every mover by its velocity, one after the other. */
  method MoveMovers(movers: seq<Mover>) returns (moved: seq<Mover>)
    ensures moved == MoveAll(movers)
  {
    moved := movers;
    var i := 0;
    while i < |moved|
      invariant 0 <= i <= |moved| == |movers|
      invariant forall j :: 0 <= j < i ==> moved[j] == Advanced(movers[j])
      invariant forall j :: i <= j < |moved| ==> moved[j] == movers[j]
    {
      moved := moved[i := moved[i].(x := moved[i].x + moved[i].velocity)];
      i := i + 1;
    }
  }

  /** Scans the movers: keeps those still in the scene, and notes whether one left. */
  method CullMovers(moved: seq<Mover>) returns (kept: seq<Mover>, spawn: bool)
    ensures kept == Survivors(moved)
    ensures spawn <==> exists k :: 0 <= k < |moved| && Exited(moved[k])
  {
    kept := [];
    spawn := false;
    var j := 0;
    while j < |moved|
      invariant 0 <= j <= |moved|
      invariant kept == Survivors(moved[..j])
      invariant spawn <==> exists k :: 0 <= k < j && Exited(moved[k])
    {
      var m := moved[j];
      assert moved[..j + 1][..j] == moved[..j];
      if m.velocity >= 0.0 && m.x >= SceneWidth as real {
        spawn := true;
      } else if m.velocity < 0.0 && m.x + m.width as real < 0.0 {
        spawn := true;
      } else {
        kept := kept + [m];
      }
      j := j + 1;
    }
    assert moved[..j] == moved;
  }

  /** The lane a tick of `kind` traffic updates: roads for vehicles, the river for trunks. */
  predicate Carries(lane: Lane, kind: MoverKind) {
    if kind == Vehicles then lane.VehicleLane? else lane.TrunkLane?
  }

  function StepLaneOfKind(laneIndex: nat, lane: Lane, draw: Draw, kind: MoverKind): Lane
    requires ValidDraw(draw)
  {
    match lane
    case VehicleLane(vs) => if kind == Vehicles then VehicleLane(LaneStep(laneIndex, vs, draw, kind)) else lane
    case TrunkLane(ts) => if kind == Trunks then TrunkLane(LaneStep(laneIndex, ts, draw, kind)) else lane
    case MeadowLane => lane
  }

  /**
   * One tick of all lanes of one kind.  Every lane keeps its kind, lanes of
   * the other kinds are untouched, and each lane of this kind takes one lane
   * step with its own draw.
   */
  function TrafficStep(lanes: seq<Lane>, draws: seq<Draw>, kind: MoverKind): (r: seq<Lane>)
    requires |draws| == |lanes|
    requires forall i :: 0 <= i < |draws| ==> ValidDraw(draws[i])
    ensures |r| == |lanes|
    ensures forall i :: 0 <= i < |lanes| ==> KindOf(r[i]) == KindOf(lanes[i])
    ensures forall i :: 0 <= i < |lanes| && AllWellSized(Movers(lanes[i])) ==> AllWellSized(Movers(r[i]))
  {
    seq(|lanes|, i requires 0 <= i < |lanes| => StepLaneOfKind(i, lanes[i], draws[i], kind))
  }

  /**
   * A traffic step leaves lanes of the other kinds untouched and applies one
   * lane step, with the lane's own draw, to each lane of its kind.
   */
  lemma TrafficStepLanes(lanes: seq<Lane>, draws: seq<Draw>, kind: MoverKind)
    requires |draws| == |lanes|
    requires forall i :: 0 <= i < |draws| ==> ValidDraw(draws[i])
    ensures forall i :: 0 <= i < |lanes| && !Carries(lanes[i], kind) ==>
              TrafficStep(lanes, draws, kind)[i] == lanes[i]
    ensures forall i :: 0 <= i < |lanes| && Carries(lanes[i], kind) ==>
              Movers(TrafficStep(lanes, draws, kind)[i]) == LaneStep(i, Movers(lanes[i]), draws[i], kind)
  {
  }
}
