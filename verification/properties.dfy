/** Properties of the game's dispatch step and of one tick. */
module Properties {
  import opened Wrappers
  import opened Scene
  import opened Entities
  import opened Traffic
  import opened Riding
  import opened Combo
  import opened Jumping
  import opened Game

  /**
   * A tick keeps the state invariant, sets the clock, and leaves the quit
   * flag, the outcome, the start time and the pressed buttons alone.
   */
  lemma TickPreservesValid(s: Snapshot, now: real, draws: seq<Draw>)
    requires ValidSnapshot(s) && s.now <= now && ValidDraws(draws)
    ensures var s' := TickSpec(s, now, draws).0;
            && ValidSnapshot(s') && s'.now == now
            && s'.receivedQuit == s.receivedQuit && s'.gameOver == s.gameOver
            && s'.gameStart == s.gameStart && s'.jumpButtons == s.jumpButtons
  {
    if !AtGoal(s) {
      var s1 := DriveSpec(s, now, draws).0;
      TrafficKeepsLanesWellFormed(s.lanes, draws, Vehicles);
      assert ValidSnapshot(s1);
      TrafficKeepsLanesWellFormed(s1.lanes, draws, Trunks);
      assert TickSpec(s, now, draws).0 == RideSpec(s1, draws).0;
    }
  }

  /**
   * A tick only announces game overs: exactly the happy end at the goal,
   * and elsewhere only crashes and drownings, every crash before every
   * drowning (so a crash and a drowning in one tick record the crash).
   */
  lemma TickOnlyEndsGames(s: Snapshot, now: real, draws: seq<Draw>)
    requires ValidSnapshot(s) && s.now <= now && ValidDraws(draws)
    ensures AtGoal(s) ==> TickSpec(s, now, draws).1 == [GameOver(HappyEnd)]
    ensures !AtGoal(s) ==> var q := TickSpec(s, now, draws).1;
              forall k :: 0 <= k < |q| ==> q[k] == GameOver(Crash) || q[k] == GameOver(Drowning)
    ensures var q := TickSpec(s, now, draws).1;
            forall k, l :: 0 <= k < l < |q| && q[l] == GameOver(Crash) ==> q[k] == GameOver(Crash)
  {
  }

  /**
   * At the goal a tick announces exactly one happy end and does nothing
   * else: no jump, no traffic, no collision; only the clock moves.
   */
  lemma HappyEndShortCircuits(s: Snapshot, queue: seq<Event>, now: real, draws: seq<Draw>)
    requires ValidSnapshot(s) && s.now <= now && ValidDraws(draws)
    requires queue != [] && queue[0] == Tick && AtGoal(s)
    ensures Step(s, queue, now, draws) == StepResult(s.(now := now), queue[1..] + [GameOver(HappyEnd)], None)
  {
  }

  /**
   * Ticks are not stopped by a recorded game over: the traffic goes on
   * exactly as it would have without one.
   */
  lemma TicksIgnoreGameOver(s: Snapshot, now: real, draws: seq<Draw>, outcome: Option<GameOverKind>)
    requires ValidSnapshot(s) && s.now <= now && ValidDraws(draws)
    ensures ValidSnapshot(s.(gameOver := outcome))
    ensures TickSpec(s.(gameOver := outcome), now, draws) ==
            (TickSpec(s, now, draws).0.(gameOver := outcome), TickSpec(s, now, draws).1)
  {
    var t := s.(gameOver := outcome);
    assert AtGoal(t) == AtGoal(s);
    if !AtGoal(s) {
      assert JumpStep(t, now) == JumpStep(s, now);
    }
  }

  /**
   * A pending jump starts at the next tick that is not at the goal, from
   * where the frog stands, one lane up, due after the jump duration; the
   * frog has not moved yet and the request is consumed.
   */
  lemma TickStartsPendingJump(s: Snapshot, now: real, draws: seq<Draw>)
    requires ValidSnapshot(s) && s.now <= now && ValidDraws(draws)
    requires !AtGoal(s) && s.jumpPending && s.frog.jump.None?
    ensures var s' := TickSpec(s, now, draws).0;
            && s'.frog == Frog(s.frog.x, s.frog.y, Some(NewJump(s.frog, now)))
            && !s'.jumpPending
            && NewJump(s.frog, now) == Jump(s.frog.x, s.frog.y, s.frog.x, s.frog.y - JumpDistance as real, now, now + JumpDuration)
  {
    var started := StartPendingJump(s.frog, s.jumpPending, now);
    JumpBeginsAtOrigin(started, NewJump(s.frog, now));
    var frog1 := JumpStep(s, now);
    assert frog1 == Frog(s.frog.x, s.frog.y, Some(NewJump(s.frog, now)));
  }

  /**
   * A jump in flight is never replaced: a pending request is dropped, and
   * the frog either lands on the target (the jump is over) or stays on the
   * line from the origin to the target (the jump goes on).
   */
  lemma TickAdvancesJumpInFlight(s: Snapshot, j: Jump, now: real, draws: seq<Draw>)
    requires ValidSnapshot(s) && s.now <= now && ValidDraws(draws)
    requires !AtGoal(s) && s.frog.jump == Some(j)
    ensures var s' := TickSpec(s, now, draws).0;
            && !s'.jumpPending
            && (now >= j.eta ==> s'.frog.jump.None? && s'.frog.y == j.targetY)
            && (now < j.eta ==>
                  && s'.frog.jump == Some(j) && s'.frog.x == j.originX && j.targetY < s'.frog.y <= j.originY
                  && s'.frog.y == j.originY - (now - j.start) * 156.0)
  {
  }

  /**
   * A crash is announced exactly when the frog, after its jump step, is in
   * a road whose vehicles, after their step, include one that hits it.
   */
  lemma TickCrashes(s: Snapshot, now: real, draws: seq<Draw>)
    requires ValidSnapshot(s) && s.now <= now && ValidDraws(draws)
    requires !AtGoal(s)
    ensures var frog := JumpStep(s, now);
            var lanes := TrafficStep(s.lanes, draws, Vehicles);
            var lane := FrogLane(frog, lanes);
            GameOver(Crash) in TickSpec(s, now, draws).1 <==>
              lane.VehicleLane? && exists i :: 0 <= i < |lane.vehicles| && Hits(lane.vehicles[i], frog)
  {
    var frog := JumpStep(s, now);
    var lanes := TrafficStep(s.lanes, draws, Vehicles);
    var lane := FrogLane(frog, lanes);
    if lane.VehicleLane? {
      var crashes := CrashEvents(lane.vehicles, frog);
      assert GameOver(Crash) in crashes <==> crashes != [] by {
        if crashes != [] {
          assert crashes[0] == GameOver(Crash);
        }
      }
    }
  }

  /**
   * Drowning is announced exactly when, after riding and the trunk step,
   * the frog stands (not jumping) in a river lane on no trunk, or has been
   * carried out of the scene.
   */
  lemma TickDrowns(s: Snapshot, now: real, draws: seq<Draw>)
    requires ValidSnapshot(s) && s.now <= now && ValidDraws(draws)
    requires !AtGoal(s)
    ensures var frog1 := JumpStep(s, now);
            var lanes1 := TrafficStep(s.lanes, draws, Vehicles);
            var frog := SailFrog(frog1, lanes1);
            var lanes := TrafficStep(lanes1, draws, Trunks);
            GameOver(Drowning) in TickSpec(s, now, draws).1 <==>
              || (frog.jump.None? && FrogLane(frog, lanes).TrunkLane? &&
                  forall t :: t in FrogLane(frog, lanes).trunks ==> !OnTrunk(t, frog.x))
              || frog.x >= SceneWidth as real
              || frog.x + FrogWidth as real < 0.0
  {
    var frog1 := JumpStep(s, now);
    var lanes1 := TrafficStep(s.lanes, draws, Vehicles);
    var frog := SailFrog(frog1, lanes1);
    var lanes := TrafficStep(lanes1, draws, Trunks);
    assert KindOf(FrogLane(frog, lanes)) == KindOf(FrogLane(frog1, lanes1));
  }

  /**
   * The frog rides the trunk it stands on before the trunks move: the
   * vehicle step leaves the river alone, so the carrying trunk is found in
   * the lanes as they were at the start of the tick, and the frog moves by
   * its velocity only horizontally.
   */
  lemma TickRidesTrunkBeforeItMoves(s: Snapshot, now: real, draws: seq<Draw>)
    requires ValidSnapshot(s) && s.now <= now && ValidDraws(draws)
    requires !AtGoal(s)
    ensures var frog1 := JumpStep(s, now);
            var frog := TickSpec(s, now, draws).0.frog;
            && FrogLaneExists(frog1, s.lanes)
            && frog.y == frog1.y && frog.jump == frog1.jump
            && (TrunkUnderFrog(frog1, s.lanes).None? ==> frog.x == frog1.x)
            && (TrunkUnderFrog(frog1, s.lanes).Some? ==>
                  frog.x == frog1.x + TrunkUnderFrog(frog1, s.lanes).value.velocity)
  {
    var frog1 := JumpStep(s, now);
    var lanes1 := TrafficStep(s.lanes, draws, Vehicles);
    var i := LaneIndexForY(frog1.y);
    assert KindOf(lanes1[i]) == KindOf(s.lanes[i]);
    if s.lanes[i].TrunkLane? {
      assert lanes1[i] == s.lanes[i];
    }
    assert TrunkUnderFrog(frog1, lanes1) == TrunkUnderFrog(frog1, s.lanes);
  }

  /** One dispatch keeps the state invariant and never sets the clock past `now`. */
  lemma StepPreservesValid(s: Snapshot, queue: seq<Event>, now: real, draws: seq<Draw>)
    requires ValidSnapshot(s) && s.now <= now && ValidDraws(draws)
    ensures ValidSnapshot(Step(s, queue, now, draws).state)
    ensures Step(s, queue, now, draws).state.now <= now
  {
    if queue != [] {
      match queue[0]
      case ReceivedRestart => InitialIsValid(now);
      case Tick => TickPreservesValid(s, now, draws);
      case _ =>
    }
  }

  /**
   * One dispatch consumes exactly the front event and appends new events
   * only at the back: at most one jump request after a button press, only
   * game overs after a tick, nothing after anything else.
   */
  lemma StepConsumesFront(s: Snapshot, queue: seq<Event>, now: real, draws: seq<Draw>)
    requires ValidSnapshot(s) && s.now <= now && ValidDraws(draws)
    requires queue != []
    ensures var q := Step(s, queue, now, draws).queue;
            && |q| >= |queue| - 1
            && q[..|queue| - 1] == queue[1..]
            && (queue[0].ButtonDown? ==> forall k :: |queue| - 1 <= k < |q| ==> q[k] == ReceivedJump)
            && (queue[0].ButtonDown? ==> |q| <= |queue|)
            && (queue[0].Tick? ==> forall k :: |queue| - 1 <= k < |q| ==> q[k].GameOver?)
            && (!queue[0].ButtonDown? && !queue[0].Tick? ==> q == queue[1..])
  {
    var q := Step(s, queue, now, draws).queue;
    if queue[0].Tick? {
      TickOnlyEndsGames(s, now, draws);
      assert q == queue[1..] + TickSpec(s, now, draws).1;
    }
  }

  /** No dispatch puts a restart into the queue: one arrives only from the player. */
  lemma NoRestartAppended(s: Snapshot, queue: seq<Event>, now: real, draws: seq<Draw>)
    requires ValidSnapshot(s) && s.now <= now && ValidDraws(draws)
    requires ReceivedRestart !in queue
    ensures ReceivedRestart !in Step(s, queue, now, draws).queue
  {
    if queue != [] {
      StepConsumesFront(s, queue, now, draws);
      var q := Step(s, queue, now, draws).queue;
      forall k | 0 <= k < |q|
        ensures q[k] != ReceivedRestart
      {
        if k < |queue| - 1 {
          assert q[k] == q[..|queue| - 1][k] == queue[k + 1];
        }
      }
    }
  }

  /**
   * Without a restart in the queue a dispatch queues no restart, keeps a
   * recorded outcome without a sound, and plays a sound only together with
   * recording the outcome it belongs to.
   */
  lemma StepKeepsOutcome(s: Snapshot, queue: seq<Event>, now: real, draws: seq<Draw>)
    requires ValidSnapshot(s) && s.now <= now && ValidDraws(draws)
    requires queue != [] && ReceivedRestart !in queue
    ensures var o := Step(s, queue, now, draws);
            && ReceivedRestart !in o.queue
            && (s.gameOver.Some? ==> o.state.gameOver == s.gameOver && o.sound.None?)
            && (o.sound.Some? ==> o.state.gameOver.Some? && o.sound == Some(SoundFor(o.state.gameOver.value)))
  {
    NoRestartAppended(s, queue, now, draws);
    OutcomeRecordedWithItsSound(s, queue, now, draws);
    if s.gameOver.Some? {
      FirstOutcomeWins(s, queue, now, draws);
    }
  }

  /** Quit sets the flag and nothing else. */
  lemma QuitSetsFlag(s: Snapshot, queue: seq<Event>, now: real, draws: seq<Draw>)
    requires ValidSnapshot(s) && s.now <= now && ValidDraws(draws)
    requires queue != [] && queue[0] == ReceivedQuit
    ensures Step(s, queue, now, draws) == StepResult(s.(receivedQuit := true), queue[1..], None)
  {
  }

  /**
   * Restart starts afresh: 13 empty lanes of the fixed kinds, the frog back
   * at its start in the first lane without a jump, no pressed buttons, no
   * pending jump, no outcome, the quit flag down and the clocks at `now`.
   */
  lemma RestartStartsAfresh(s: Snapshot, queue: seq<Event>, now: real, draws: seq<Draw>)
    requires ValidSnapshot(s) && s.now <= now && ValidDraws(draws)
    requires queue != [] && queue[0] == ReceivedRestart
    ensures var s' := Step(s, queue, now, draws).state;
            && |s'.lanes| == 13
            && (forall i :: 0 <= i < 13 ==> KindOf(s'.lanes[i]) == KindAt(i) && Movers(s'.lanes[i]) == [])
            && s'.frog == Frog(FrogStartX, FrogStartY, None)
            && LaneIndexForY(s'.frog.y) == 0
            && s'.jumpButtons == map[] && !s'.jumpPending && s'.gameOver.None? && !s'.receivedQuit
            && s'.gameStart == now && s'.now == now
    ensures Step(s, queue, now, draws).queue == queue[1..]
  {
    InitialIsValid(now);
  }

  /**
   * The first outcome wins: once the game is over, no event but a restart
   * changes the outcome, and no sound plays again.
   */
  lemma FirstOutcomeWins(s: Snapshot, queue: seq<Event>, now: real, draws: seq<Draw>)
    requires ValidSnapshot(s) && s.now <= now && ValidDraws(draws)
    requires s.gameOver.Some? && (queue == [] || queue[0] != ReceivedRestart)
    ensures Step(s, queue, now, draws).state.gameOver == s.gameOver
    ensures Step(s, queue, now, draws).sound.None?
  {
    if queue != [] && queue[0].Tick? {
    }
  }

  /**
   * A sound plays exactly when a game-over event meets a game that is not
   * over yet; the outcome is then recorded and the sound is its own.
   */
  lemma OutcomeRecordedWithItsSound(s: Snapshot, queue: seq<Event>, now: real, draws: seq<Draw>)
    requires ValidSnapshot(s) && s.now <= now && ValidDraws(draws)
    ensures Step(s, queue, now, draws).sound.Some? <==>
            queue != [] && queue[0].GameOver? && s.gameOver.None?
    ensures queue != [] && queue[0].GameOver? && s.gameOver.None? ==>
            && Step(s, queue, now, draws).state == s.(gameOver := Some(queue[0].kind))
            && Step(s, queue, now, draws).sound == Some(SoundFor(queue[0].kind))
  {
  }

  /** The events whose handling may append new events. */
  function Work(queue: seq<Event>): nat {
    if queue == [] then 0
    else (if queue[0].ButtonDown? || queue[0].Tick? then 1 else 0) + Work(queue[1..])
  }

  lemma {:induction false} WorkOfConcat(a: seq<Event>, b: seq<Event>)
    ensures Work(a + b) == Work(a) + Work(b)
  {
    if a == [] {
      assert a + b == b;
    } else {
      assert (a + b)[0] == a[0];
      assert (a + b)[1..] == a[1..] + b;
      WorkOfConcat(a[1..], b);
    }
  }

  lemma {:induction false} NoWorkInEndings(q: seq<Event>)
    requires forall e :: e in q ==> e == ReceivedJump || e.GameOver?
    ensures Work(q) == 0
  {
    if q != [] {
      assert q[0] in q;
      NoWorkInEndings(q[1..]);
    }
  }

  /**
   * Every dispatch makes progress: it handles one button press or tick, or
   * it shortens the queue without adding work.  So draining always ends.
   */
  lemma StepMakesProgress(s: Snapshot, queue: seq<Event>, now: real, draws: seq<Draw>)
    requires ValidSnapshot(s) && s.now <= now && ValidDraws(draws)
    requires queue != []
    ensures var q := Step(s, queue, now, draws).queue;
            Work(q) < Work(queue) || (Work(q) == Work(queue) && |q| < |queue|)
  {
    var q := Step(s, queue, now, draws).queue;
    StepConsumesFront(s, queue, now, draws);
    assert q == queue[1..] + q[|queue| - 1..];
    WorkOfConcat(queue[1..], q[|queue| - 1..]);
    var tail := q[|queue| - 1..];
    assert forall e :: e in tail ==> e == ReceivedJump || e.GameOver? by {
      if queue[0].Tick? {
      } else if queue[0].ButtonDown? {
      } else {
        assert tail == [];
      }
    }
    NoWorkInEndings(tail);
  }

  /**
   * Handling events until the queue is empty, as the main loop does after
   * each frame: dispatch `n` reads the time `clock(n)` and makes the draws
   * `draws(n)`; every event, including those appended on the way, goes
   * through `Step` in queue order.  Returns the final state and the sounds
   * played, in order.  The final state is valid.
   */
  function Drained(s: Snapshot, queue: seq<Event>, clock: nat -> real, draws: nat -> seq<Draw>, n: nat)
    : (r: (Snapshot, seq<Sound>))
    requires ValidSnapshot(s) && s.now <= clock(n)
    requires forall m: nat, m': nat :: m <= m' ==> clock(m) <= clock(m')
    requires forall m: nat :: ValidDraws(draws(m))
    ensures ValidSnapshot(r.0)
    decreases Work(queue), |queue|
  {
    if queue == [] then (s, [])
    else
      var o := Step(s, queue, clock(n), draws(n));
      StepPreservesValid(s, queue, clock(n), draws(n));
      StepMakesProgress(s, queue, clock(n), draws(n));
      var rest := Drained(o.state, o.queue, clock, draws, n + 1);
      (rest.0, (if o.sound.Some? then [o.sound.value] else []) + rest.1)
  }

  /** The sounds of a drain are collected by concatenation, one dispatch at a time. */
  lemma ConcatAssociates<T>(a: seq<T>, b: seq<T>, c: seq<T>)
    ensures a + (b + c) == (a + b) + c
  {
  }

  /** Draining a non-empty queue is one dispatch followed by draining what it leaves. */
  lemma DrainedUnfold(s: Snapshot, queue: seq<Event>, clock: nat -> real, draws: nat -> seq<Draw>, n: nat)
    requires ValidSnapshot(s) && s.now <= clock(n)
    requires forall m: nat, m': nat :: m <= m' ==> clock(m) <= clock(m')
    requires forall m: nat :: ValidDraws(draws(m))
    requires queue != []
    ensures var o := Step(s, queue, clock(n), draws(n));
            && ValidSnapshot(o.state) && o.state.now <= clock(n + 1)
            && var rest := Drained(o.state, o.queue, clock, draws, n + 1);
               Drained(s, queue, clock, draws, n) ==
               (rest.0, (if o.sound.Some? then [o.sound.value] else []) + rest.1)
  {
    StepPreservesValid(s, queue, clock(n), draws(n));
  }

  /**
   * Without a restart in the queue, draining keeps a recorded outcome and
   * then plays nothing; it plays at most one sound, the one of the outcome
   * it ends with.
   */
  lemma {:induction false} DrainKeepsOutcome(s: Snapshot, queue: seq<Event>, clock: nat -> real,
                                             draws: nat -> seq<Draw>, n: nat)
    requires ValidSnapshot(s) && s.now <= clock(n)
    requires forall m: nat, m': nat :: m <= m' ==> clock(m) <= clock(m')
    requires forall m: nat :: ValidDraws(draws(m))
    requires ReceivedRestart !in queue
    ensures var r := Drained(s, queue, clock, draws, n);
            && (s.gameOver.Some? ==> r.0.gameOver == s.gameOver && r.1 == [])
            && |r.1| <= 1
            && (r.1 != [] ==> r.0.gameOver.Some? && r.1 == [SoundFor(r.0.gameOver.value)])
    decreases Work(queue), |queue|
  {
    if queue != [] {
      var o := Step(s, queue, clock(n), draws(n));
      DrainedUnfold(s, queue, clock, draws, n);
      StepKeepsOutcome(s, queue, clock(n), draws(n));
      StepMakesProgress(s, queue, clock(n), draws(n));
      DrainKeepsOutcome(o.state, o.queue, clock, draws, n + 1);
    }
  }
}
