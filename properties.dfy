/** What the player operations, the sweep, the stage change and the frame
    loop promise, stated over the step functions of `Simulation`. */
module Properties {
  import opened Arena
  import opened Pieces
  import opened Rotation
  import opened WallKick
  import opened Stage
  import opened Simulation

  // ---------------------------------------------------------------------
  // playerMove

  /** The piece moves by d exactly when the shifted piece fits; otherwise
      nothing at all changes. */
  lemma MoveOutcome(s: Session, d: int)
    requires IsArena(s.arena)
    ensures !Colliding(s.arena, s.matrix, s.x + d, s.y) ==> MoveStep(s, d) == s.(x := s.x + d)
    ensures Colliding(s.arena, s.matrix, s.x + d, s.y) ==> MoveStep(s, d) == s
  {
  }

  /** A piece that fits still fits after a move. */
  lemma MoveKeepsFit(s: Session, d: int)
    requires IsArena(s.arena) && !Colliding(s.arena, s.matrix, s.x, s.y)
    ensures var t := MoveStep(s, d); !Colliding(t.arena, t.matrix, t.x, t.y)
  {
  }

  /** From a position that fits, moving back undoes a move that was made. */
  lemma MoveThenBack(s: Session, d: int)
    requires IsArena(s.arena) && !Colliding(s.arena, s.matrix, s.x, s.y)
    requires !Colliding(s.arena, s.matrix, s.x + d, s.y)
    ensures MoveStep(MoveStep(s, d), -d) == s
  {
    assert MoveStep(s, d).x + -d == s.x;
  }

  // ---------------------------------------------------------------------
  // playerRotate

  /** Either the turned shape sits at a kicked column where it fits, or
      shape and column are what they were; the row never changes, and a
      shape that fits before the turn fits after it. */
  lemma RotateOutcome(s: Session, dir: int)
    requires IsArena(s.arena) && IsShape(s.matrix)
    ensures var t := RotateStep(s, dir);
      t.y == s.y && t.arena == s.arena &&
      ((t.matrix == Rotated(s.matrix, dir) && !Colliding(t.arena, t.matrix, t.x, t.y)) ||
       (t.matrix == s.matrix && t.x == s.x))
    ensures var t := RotateStep(s, dir);
      !Colliding(s.arena, s.matrix, s.x, s.y) ==> !Colliding(t.arena, t.matrix, t.x, t.y)
    ensures Kick(s.arena, Rotated(s.matrix, dir), s.x, s.y).None? ==> RotateStep(s, dir) == s
  {
  }

  // ---------------------------------------------------------------------
  // playerReset

  /** While a stage change is pending nothing happens. Otherwise a piece of
      kind `next` appears in row 0, centred at column 5 - floor(w/2), and
      the game is over (the loop stopped) exactly when it collides at once;
      the score and stage never change. */
  lemma ResetOutcome(s: Session, next: Kind)
    requires IsArena(s.arena)
    ensures s.waiting ==> ResetStep(s, next) == s && SpawnFits(s, next)
    ensures var t := ResetStep(s, next);
      !s.waiting ==>
        t.matrix == CreatePiece(next) && t.y == 0 && t.x == 5 - Size(next) / 2 &&
        (t.loopRunning <==> s.loopRunning && SpawnFits(s, next)) &&
        (!SpawnFits(s, next) <==> Colliding(s.arena, t.matrix, t.x, t.y))
    ensures ResetStep(s, next).score == s.score && ResetStep(s, next).stage == s.stage
  {
  }

  // ---------------------------------------------------------------------
  // Locking: merge, playerReset, arenaSweep

  /** A lock writes the piece into the arena, then spawns the next piece
      and decides whether the game is over against the arena as merged,
      before any full row is removed; the sweep comes last. */
  lemma LockSpawnsBeforeSweep(s: Session, next: Kind)
    requires IsArena(s.arena) && !s.waiting
    ensures var merged := Merged(s.arena, s.matrix, s.x, s.y);
      var t := LockStep(s, next);
      t.arena == Swept(merged) && t.matrix == CreatePiece(next) && t.y == 0 &&
      (t.loopRunning <==> s.loopRunning && !Colliding(merged, CreatePiece(next), SpawnX(CreatePiece(next)), 0))
  {
    var merged := MergedIn(s);
    var reset := ResetStep(merged, next);
    assert reset.arena == merged.arena;
  }

  /** While a stage change is pending a lock keeps the current piece. */
  lemma LockWhileWaiting(s: Session, next: Kind)
    requires IsArena(s.arena) && s.waiting
    ensures LockStep(s, next).matrix == s.matrix && LockStep(s, next).x == s.x
  {
  }

  // ---------------------------------------------------------------------
  // playerDrop and playerDropHard

  /** One row down when that row is free; otherwise the piece locks where
      it is. Either way the drop counter is back at 0. */
  lemma DropOutcome(s: Session, next: Kind)
    requires IsArena(s.arena)
    ensures !Colliding(s.arena, s.matrix, s.x, s.y + 1) ==> DropStep(s, next) == s.(y := s.y + 1, dropCounter := 0)
    ensures Colliding(s.arena, s.matrix, s.x, s.y + 1) ==> DropStep(s, next) == LockStep(s, next).(dropCounter := 0)
    ensures DropStep(s, next).dropCounter == 0
  {
  }

  /** From a position that fits, a hard drop locks the piece, column and
      shape unchanged, at the lowest row it reaches: every row from the
      start down to it fits and the next one does not. */
  lemma HardDropLanding(s: Session, next: Kind)
    requires IsArena(s.arena) && HasBlock(s.matrix) && !Colliding(s.arena, s.matrix, s.x, s.y)
    ensures var l := Landed(s);
      l.x == s.x && l.matrix == s.matrix && l.y >= s.y &&
      (forall y :: s.y <= y <= l.y ==> !Colliding(s.arena, s.matrix, s.x, y)) &&
      Colliding(s.arena, s.matrix, s.x, l.y + 1)
    ensures HardDropStep(s, next).arena == Swept(Merged(s.arena, s.matrix, s.x, Landed(s).y))
    ensures HardDropStep(s, next).dropCounter == 0
  {
    var l := Landed(s);
    var locked := LockStep(l, next);
    assert MergedIn(l).arena == Merged(s.arena, s.matrix, s.x, l.y);
    assert ResetStep(MergedIn(l), next).arena == MergedIn(l).arena;
  }

  // ---------------------------------------------------------------------
  // arenaSweep

  /** A sweep that removes no row changes nothing. */
  lemma SweepNothingCleared(s: Session)
    requires IsArena(s.arena) && FullRowCount(s.arena) == 0
    ensures SweepStep(s) == s
  {
    NothingClearedUnchanged(s.arena);
  }

  /** k > 0 removed rows earn points[k] (100 from four rows on) times the
      stage and count towards the stage's lines; the stage and the falling
      piece are untouched. */
  lemma SweepScoring(s: Session)
    requires IsArena(s.arena) && FullRowCount(s.arena) > 0
    ensures var k := FullRowCount(s.arena);
      var t := SweepStep(s);
      t.arena == Swept(s.arena) && t.score == s.score + LinePoints(k) * s.stage &&
      t.linesCleared == s.linesCleared + k && t.stage == s.stage
  {
  }

  /** A stage clear is scheduled exactly when rows were removed, the lines
      reach the stage's target, and no stage change is already waiting;
      at most one is scheduled per sweep. */
  lemma SweepSchedulesStageClear(s: Session)
    requires IsArena(s.arena)
    ensures var k := FullRowCount(s.arena);
      var t := SweepStep(s);
      (t.scheduledWaits == s.scheduledWaits + 1 <==>
         k > 0 && s.linesCleared + k >= s.linesPerStage && !s.waiting) &&
      (t.scheduledWaits == s.scheduledWaits || t.scheduledWaits == s.scheduledWaits + 1) &&
      t.scheduledAdvances == s.scheduledAdvances
  {
  }

  // ---------------------------------------------------------------------
  // advanceStage and the deferred callbacks

  /** The stage goes up by one with two more lines to clear, the line count
      and every arena cell are zeroed, and since the first piece always
      fits an empty arena, a new piece is placed and the loop runs again. */
  lemma AdvanceOutcome(s: Session, next: Kind)
    requires ValidSession(s) && !s.waiting
    ensures var t := AdvanceStep(s, next);
      t.stage == s.stage + 1 && t.linesCleared == 0 && t.linesPerStage == s.linesPerStage + 2 &&
      t.normalDropInterval <= s.normalDropInterval &&
      IsZeroMatrix(t.arena, Width, Height) && t.score == s.score &&
      t.matrix == CreatePiece(next) && t.y == 0 && t.loopRunning && !t.waiting
  {
    var n := NextStage(s);
    SpawnFitsEmptyArena(next);
    assert SpawnFits(n, next);
    LinesGrowByTwo(s.stage);
    DropIntervalNonIncreasing(s.stage, s.stage + 1);
  }

  /** A scheduled stage clear runs in two callbacks: the first freezes the
      game (a frame does nothing), the second advances the stage by one and
      starts the loop again. */
  lemma StageClearCycle(s: Session, next: Kind, delta: nat, downHeld: bool)
    requires ValidSession(s) && s.scheduledWaits > 0
    ensures var w := BeginWaitStep(s);
      w.waiting && !w.loopRunning && w.scheduledAdvances == s.scheduledAdvances + 1 &&
      TickStep(w, delta, downHeld, next) == w
    ensures var u := AdvanceCallbackStep(BeginWaitStep(s), next);
      u.stage == s.stage + 1 && !u.waiting && u.loopRunning &&
      u.scheduledWaits == s.scheduledWaits - 1 && u.scheduledAdvances == s.scheduledAdvances
  {
    var w := BeginWaitStep(s);
    BeginWaitKeepsValid(s);
    AdvanceOutcome(Released(w), next);
  }

  /** The waiting flag is set only by the first callback, so a second
      qualifying sweep before it runs schedules a second stage clear, and
      the two advance the stage twice. */
  lemma DoubleStageClear(s: Session, n1: Kind, n2: Kind)
    requires ValidSession(s) && s.scheduledWaits == 2 && s.scheduledAdvances == 0
    ensures var w := BeginWaitStep(BeginWaitStep(s));
      w.scheduledAdvances == 2 &&
      AdvanceCallbackStep(AdvanceCallbackStep(w, n1), n2).stage == s.stage + 2
  {
    var w1 := BeginWaitStep(s);
    BeginWaitKeepsValid(s);
    var w := BeginWaitStep(w1);
    BeginWaitKeepsValid(w1);
    var u := AdvanceCallbackStep(w, n1);
    AdvanceOutcome(Released(w), n1);
    AdvanceCallbackKeepsValid(w, n1);
    AdvanceOutcome(Released(u), n2);
  }

  // ---------------------------------------------------------------------
  // update

  /** A frame does nothing while the loop is stopped or a stage change is
      pending. */
  lemma TickIdle(s: Session, delta: nat, downHeld: bool, next: Kind)
    requires IsArena(s.arena) && (!s.loopRunning || s.waiting)
    ensures TickStep(s, delta, downHeld, next) == s
  {
  }

  /** In a running frame the elapsed time is added to the drop counter; the
      piece drops, and the counter returns to 0, exactly when the sum
      strictly exceeds the interval (50 ms while Down is held). */
  lemma TickDropsWhenDue(s: Session, delta: nat, downHeld: bool, next: Kind)
    requires IsArena(s.arena) && s.loopRunning && !s.waiting
    ensures var interval := if downHeld then FastDropInterval else s.normalDropInterval;
      var t := TickStep(s, delta, downHeld, next);
      (s.dropCounter + delta > interval ==> t == Resumed(DropStep(Counted(s, delta), next)) && t.dropCounter == 0) &&
      (s.dropCounter + delta <= interval ==> t == s.(dropCounter := s.dropCounter + delta))
  {
  }

  // ---------------------------------------------------------------------
  // Restarting the loop after a game over

  /** A running session whose next frame ends the game: an O piece in the
      top-left corner with a block right under it, and a block where the
      next O piece would appear. */
  function GameOverFrame(): Session
  {
    var arena := ZeroRows(Height, Width)[1 := ZeroRow(Width)[4 := 1]][2 := ZeroRow(Width)[0 := 1]];
    Session(arena, CreatePiece(O), 0, 0, 0, 1, 0, InitialLinesPerStage, CalculateDropInterval(1),
            0, false, 0, 0, true)
  }

  /** As written, `update` requests the next frame after a drop that ended
      the game: in this frame gravity locks the piece, the new piece
      collides and `playerReset` stops the loop, and yet the frame leaves
      the loop running. */
  lemma TickRestartsLoopAfterGameOver()
    ensures ValidSession(GameOverFrame())
    ensures var s := GameOverFrame();
      s.loopRunning && !s.waiting && !Gravity(s, 2000, false, O).loopRunning &&
      TickStep(s, 2000, false, O).loopRunning
  {
    var s := GameOverFrame();
    var a := s.arena;
    var m := s.matrix;
    assert IsArena(a) && CellsInRange(a);
    assert m[1][0] != 0 && Blocked(a, 0, 2);
    CollidingIff(a, m, 0, 1);
    var counted := Counted(s, 2000);
    assert counted.dropCounter > CurrentInterval(s, false);
    var merged := MergedIn(counted);
    assert merged.arena[1][4] == 1;
    var spawned := Spawned(merged, O);
    assert spawned.matrix[1][0] != 0 && Blocked(merged.arena, spawned.x, 1);
    CollidingIff(merged.arena, spawned.matrix, spawned.x, spawned.y);
  }

  /** With the frame request made conditional on the loop still running,
      a frame keeps the loop running exactly when it was running and its
      own gravity step did not end the game. */
  lemma HaltingTickStopsAtGameOver(s: Session, delta: nat, downHeld: bool, next: Kind)
    requires ValidSession(s)
    ensures HaltingTickStep(s, delta, downHeld, next).loopRunning <==>
              s.loopRunning && Gravity(s, delta, downHeld, next).loopRunning
    ensures !s.loopRunning ==> HaltingTickStep(s, delta, downHeld, next) == s
  {
  }
}
