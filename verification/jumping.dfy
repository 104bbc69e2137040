/** The jump of the frog: its start, its interpolation in flight and its landing. */
module Jumping {
  import opened Wrappers
  import opened Scene
  import opened Entities

  /** The jump that starts at `now` from where the frog stands. */
  function NewJump(frog: Frog, now: real): (j: Jump)
    ensures WellFormedJump(j) && j.start < j.eta
    ensures j.originX == frog.x && j.originY == frog.y && j.start == now
  {
    Jump(frog.x, frog.y, frog.x, frog.y - JumpDistance as real, now, now + JumpDuration)
  }

  /** A pending jump starts only if no jump is already in flight. */
  function StartPendingJump(frog: Frog, pending: bool, now: real): (f: Frog)
    ensures f.x == frog.x && f.y == frog.y
    ensures frog.jump.Some? || !pending ==> f == frog
    ensures frog.jump.None? && pending ==> f.jump == Some(NewJump(frog, now))
  {
    if pending && frog.jump.None? then frog.(jump := Some(NewJump(frog, now))) else frog
  }

  /**
   * The frog after the jump step of a tick: it lands on the target once the
   * jump is due, and until then it is placed on the straight line from the
   * origin to the target in proportion to the time elapsed: it rises one
   * jump distance (39 pixels) in one jump duration (0.25 seconds), that is
   * 156 pixels per second.
   */
  function AdvanceJump(frog: Frog, now: real): (f: Frog)
    requires frog.jump.Some? ==> WellFormedJump(frog.jump.value)
    ensures frog.jump.None? ==> f == frog
    ensures frog.jump.Some? && now >= frog.jump.value.eta ==>
              f == Frog(frog.jump.value.targetX, frog.jump.value.targetY, None)
    ensures frog.jump.Some? && now < frog.jump.value.eta ==>
              f.jump == frog.jump && f.x == frog.jump.value.originX
    ensures frog.jump.Some? && frog.jump.value.start <= now ==>
              frog.jump.value.targetY <= f.y <= frog.jump.value.originY
    ensures frog.jump.Some? && frog.jump.value.start <= now < frog.jump.value.eta ==>
              frog.jump.value.targetY < f.y
    ensures frog.jump.Some? && now < frog.jump.value.eta ==>
              f.y == frog.jump.value.originY - (now - frog.jump.value.start) * 156.0
  {
    match frog.jump
    case None => frog
    case Some(j) =>
      if now >= j.eta then Frog(j.targetX, j.targetY, None)
      else
        var fraction := (now - j.start) / (j.eta - j.start);
        assert fraction == (now - j.start) * 4.0 by {
          assert j.eta - j.start == 0.25;
        }
        assert j.start <= now ==> 0.0 <= fraction < 1.0;
        var pixelsJumped := fraction * JumpDistance as real;
        assert JumpDistance as real == 39.0;
        assert j.start <= now ==> 0.0 <= pixelsJumped < JumpDistance as real;
        Frog(j.originX, j.originY - pixelsJumped, frog.jump)
  }

  /** At the start of the jump the frog is still at the origin. */
  lemma JumpBeginsAtOrigin(frog: Frog, j: Jump)
    requires frog.jump == Some(j) && WellFormedJump(j)
    ensures AdvanceJump(frog, j.start) == Frog(j.originX, j.originY, Some(j))
  {
  }

  /** In flight the frog only rises: a later time never finds it lower. */
  lemma JumpRisesMonotonically(frog: Frog, j: Jump, t1: real, t2: real)
    requires frog.jump == Some(j) && WellFormedJump(j)
    requires j.start <= t1 <= t2
    ensures AdvanceJump(frog, t2).y <= AdvanceJump(frog, t1).y
    ensures AdvanceJump(frog, t2).x == AdvanceJump(frog, t1).x == j.originX
  {
    if t2 < j.eta {
      assert j.eta - j.start == 0.25;
      assert JumpDistance as real == 39.0;
      assert (t1 - j.start) / (j.eta - j.start) == (t1 - j.start) * 4.0;
      assert (t2 - j.start) / (j.eta - j.start) == (t2 - j.start) * 4.0;
      assert AdvanceJump(frog, t1).y == j.originY - (t1 - j.start) * 4.0 * 39.0;
      assert AdvanceJump(frog, t2).y == j.originY - (t2 - j.start) * 4.0 * 39.0;
    }
  }
}
