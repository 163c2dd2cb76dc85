/** The game session of `game.js`: the arena, the falling piece ("player"),
    the score and stage counters, and the flags that start and stop the
    frame loop. `Session` is the state as a value and the `...Step`
    functions say what each operation does to it; `Game` holds the same
    state in mutable fields, and each of its methods is proved to have
    exactly the effect of its step function.

    Two callbacks the browser runs later are explicit transitions here: a
    qualifying sweep only counts one more pending `BeginWait`, which in turn
    counts one more pending `Advance`. The piece kind a spawn draws at
    random, the elapsed time of a frame and whether Down is held are
    parameters. */
module Simulation {
  import opened Arena
  import opened Pieces
  import opened Rotation
  import opened WallKick
  import opened Stage

  datatype Session = Session(
    arena: Matrix,
    matrix: Matrix,           // the falling piece's shape
    x: int,                   // column of the shape's left edge
    y: int,                   // row of the shape's top edge
    score: int,
    stage: int,
    linesCleared: int,        // rows cleared in the current stage
    linesPerStage: int,
    normalDropInterval: int,
    dropCounter: int,
    waiting: bool,            // `isWaitingForNextStage`
    scheduledWaits: nat,      // stage-clear callbacks not yet run
    scheduledAdvances: nat,   // `advanceStage` callbacks not yet run
    loopRunning: bool)        // a frame is requested (`animationFrameId` set)

  /** The invariant every reachable session keeps. */
  ghost predicate ValidSession(s: Session)
  {
    IsArena(s.arena) && CellsInRange(s.arena) && IsShape(s.matrix)
    && s.score >= 0 && s.linesCleared >= 0 && s.dropCounter >= 0
    && s.stage >= 1 && s.linesPerStage == LinesForStage(s.stage)
    && s.normalDropInterval == CalculateDropInterval(s.stage)
    && (s.waiting ==> !s.loopRunning)
  }

  /** The column at which a new piece appears: centred in the arena. */
  function SpawnX(m: Matrix): int
    requires |m| > 0
  {
    Width / 2 - |m[0]| / 2
  }

  // ---------------------------------------------------------------------
  // Step functions
  //
  // Every intermediate state an operation passes through has a name of its
  // own, so that the methods below can point at it.

  /** The piece moved d columns sideways. */
  function Shifted(s: Session, d: int): Session
  {
    s.(x := s.x + d)
  }

  /** `playerMove`: shift by d unless the shifted piece would collide. */
  function MoveStep(s: Session, d: int): Session
    requires IsArena(s.arena)
  {
    if Colliding(s.arena, s.matrix, s.x + d, s.y) then s else Shifted(s, d)
  }

  /** The piece replaced by the shape r, d columns further right. */
  function Turned(s: Session, r: Matrix, d: int): Session
  {
    s.(matrix := r, x := s.x + d)
  }

  /** `playerRotate`: turn a copy of the shape, then try the kick positions;
      when none fits, shape and column are left as they were. */
  function RotateStep(s: Session, dir: int): Session
    requires IsArena(s.arena) && IsSquare(s.matrix) && |s.matrix| > 0
  {
    var r := Rotated(s.matrix, dir);
    match Kick(s.arena, r, s.x, s.y)
    case None => s
    case Some(d) => Turned(s, r, d)
  }

  /** A new piece of kind `next` at the top row, centred. */
  function Spawned(s: Session, next: Kind): Session
  {
    var m := CreatePiece(next);
    s.(matrix := m, x := SpawnX(m), y := 0)
  }

  /** The frame loop stopped (`cancelAnimationFrame`). */
  function Halted(s: Session): Session
  {
    s.(loopRunning := false)
  }

  /** The frame loop requested again (`requestAnimationFrame`). */
  function Resumed(s: Session): Session
  {
    s.(loopRunning := true)
  }

  /** Whether `playerReset` reports the game as still on. */
  predicate SpawnFits(s: Session, next: Kind)
    requires IsArena(s.arena)
  {
    var t := Spawned(s, next);
    s.waiting || !Colliding(t.arena, t.matrix, t.x, t.y)
  }

  /** `playerReset`: while waiting for the next stage nothing happens;
      otherwise a new piece of kind `next` appears at the top, centred, and
      if it collides at once the game is over and the frame loop stops. */
  function ResetStep(s: Session, next: Kind): (t: Session)
    requires IsArena(s.arena)
    ensures t.arena == s.arena && t.score == s.score && t.stage == s.stage && t.waiting == s.waiting
  {
    if s.waiting then s
    else
      var t := Spawned(s, next);
      if Colliding(t.arena, t.matrix, t.x, t.y) then Halted(t) else t
  }

  /** The arena with its full rows removed. */
  function Cleared(s: Session): Session
    requires IsArena(s.arena)
  {
    s.(arena := Swept(s.arena))
  }

  /** k removed rows scored at the current stage and counted. */
  function Scored(s: Session, k: nat): Session
  {
    s.(score := s.score + Award(k, s.stage), linesCleared := s.linesCleared + k)
  }

  /** One more stage-clear callback pending (`setTimeout`). */
  function StageClearQueued(s: Session): Session
  {
    s.(scheduledWaits := s.scheduledWaits + 1)
  }

  /** `arenaSweep`: remove the full rows; if any were removed, award points
      and count the lines, and schedule a stage clear once enough lines are
      in, unless a stage change is already under way. */
  function SweepStep(s: Session): (t: Session)
    requires IsArena(s.arena)
    ensures t.matrix == s.matrix && t.x == s.x && t.y == s.y && t.loopRunning == s.loopRunning
    ensures t.waiting == s.waiting
  {
    var k := FullRowCount(s.arena);
    var swept := Cleared(s);
    if k == 0 then swept
    else
      var scored := Scored(swept, k);
      if scored.linesCleared >= scored.linesPerStage && !scored.waiting
      then StageClearQueued(scored)
      else scored
  }

  /** The piece's blocks written into the arena where it stands. */
  function MergedIn(s: Session): Session
    requires IsArena(s.arena)
  {
    s.(arena := Merged(s.arena, s.matrix, s.x, s.y))
  }

  /** Locking the piece where it stands: merge, spawn the next piece, then
      sweep, in the order `playerDrop` and `playerDropHard` use. */
  function LockStep(s: Session, next: Kind): (t: Session)
    requires IsArena(s.arena)
    ensures t.waiting == s.waiting
  {
    SweepStep(ResetStep(MergedIn(s), next))
  }

  /** The piece one row lower. */
  function Fallen(s: Session): Session
  {
    s.(y := s.y + 1)
  }

  /** The drop counter back at 0. */
  function CounterReset(s: Session): Session
  {
    s.(dropCounter := 0)
  }

  /** `playerDrop`: one row down, or lock when the row below is blocked. */
  function DropStep(s: Session, next: Kind): (t: Session)
    requires IsArena(s.arena)
    ensures t.waiting == s.waiting && t.dropCounter == 0
  {
    CounterReset(if Colliding(s.arena, s.matrix, s.x, s.y + 1) then LockStep(s, next) else Fallen(s))
  }

  /** The piece at the last row it fits in on its way straight down. */
  function Landed(s: Session): Session
    requires IsArena(s.arena) && HasBlock(s.matrix)
  {
    s.(y := FirstBlockedRow(s.arena, s.matrix, s.x, s.y) - 1)
  }

  /** `playerDropHard`: fall until blocked, step back one row, lock. */
  function HardDropStep(s: Session, next: Kind): Session
    requires IsArena(s.arena) && HasBlock(s.matrix)
  {
    CounterReset(LockStep(Landed(s), next))
  }

  /** The counters of the next stage and an emptied arena. */
  function NextStage(s: Session): Session
  {
    s.(stage := s.stage + 1, linesCleared := 0, linesPerStage := LinesForStage(s.stage + 1),
       normalDropInterval := CalculateDropInterval(s.stage + 1), arena := ZeroRows(Height, Width))
  }

  /** The state changes `advanceStage` makes: next stage, its line target
      and speed, an empty arena, a new piece, and the loop requested again
      when the piece fits and no frame is pending. */
  function AdvanceStep(s: Session, next: Kind): Session
  {
    var t := NextStage(s);
    var u := ResetStep(t, next);
    if SpawnFits(t, next) && !u.loopRunning then Resumed(u) else u
  }

  /** The first deferred callback of a stage clear: start waiting, stop the
      loop, and schedule the second callback. */
  function BeginWaitStep(s: Session): Session
    requires s.scheduledWaits > 0
  {
    s.(scheduledWaits := s.scheduledWaits - 1, waiting := true, loopRunning := false,
       scheduledAdvances := s.scheduledAdvances + 1)
  }

  /** The second callback taken off the queue, and the wait over. */
  function Released(s: Session): Session
    requires s.scheduledAdvances > 0
  {
    s.(scheduledAdvances := s.scheduledAdvances - 1, waiting := false)
  }

  /** The second deferred callback: stop waiting and advance the stage. */
  function AdvanceCallbackStep(s: Session, next: Kind): Session
    requires s.scheduledAdvances > 0
  {
    AdvanceStep(Released(s), next)
  }

  /** The drop interval of a frame: fast while Down is held. */
  function CurrentInterval(s: Session, downHeld: bool): int
  {
    if downHeld then FastDropInterval else s.normalDropInterval
  }

  /** The frame's elapsed time added to the drop counter. */
  function Counted(s: Session, delta: nat): Session
  {
    s.(dropCounter := s.dropCounter + delta)
  }

  /** The gravity part of a frame: count the elapsed time and drop once the
      counter exceeds the interval. */
  function Gravity(s: Session, delta: nat, downHeld: bool, next: Kind): (t: Session)
    requires IsArena(s.arena)
    ensures t.waiting == s.waiting
  {
    var counted := Counted(s, delta);
    if counted.dropCounter > CurrentInterval(s, downHeld) then DropStep(counted, next) else counted
  }

  /** `update` as written: a stopped or waiting loop does nothing; otherwise
      gravity runs and the next frame is requested unconditionally. */
  function TickStep(s: Session, delta: nat, downHeld: bool, next: Kind): Session
    requires IsArena(s.arena)
  {
    if !s.loopRunning || s.waiting then s
    else Resumed(Gravity(s, delta, downHeld, next))
  }

  /** `update` as evidently intended: the next frame is requested only if
      the loop was not stopped by a game over during this frame. */
  function HaltingTickStep(s: Session, delta: nat, downHeld: bool, next: Kind): Session
    requires IsArena(s.arena)
  {
    if !s.loopRunning || s.waiting then s
    else Gravity(s, delta, downHeld, next)
  }

  /** The session `initGame` sets up, with `first` as the first piece. */
  function InitialSession(first: Kind): Session
  {
    var m := CreatePiece(first);
    Session(ZeroRows(Height, Width), m, SpawnX(m), 0, 0, 1, 0, InitialLinesPerStage,
            CalculateDropInterval(1), 0, false, 0, 0, true)
  }

  // ---------------------------------------------------------------------
  // The mutable game

  class Game {
    var arena: Matrix
    var matrix: Matrix
    var x: int
    var y: int
    var score: int
    var stage: int
    var linesCleared: int
    var linesPerStage: int
    var normalDropInterval: int
    var dropCounter: int
    var waiting: bool
    var scheduledWaits: nat
    var scheduledAdvances: nat
    var loopRunning: bool

    function State(): Session
      reads this
    {
      Session(arena, matrix, x, y, score, stage, linesCleared, linesPerStage, normalDropInterval,
              dropCounter, waiting, scheduledWaits, scheduledAdvances, loopRunning)
    }

    ghost predicate Valid()
      reads this
    {
      ValidSession(State())
    }

    /** `initGame`: an empty arena, stage 1, no score, and the first piece. */
    constructor (first: Kind)
      ensures Valid()
      ensures State() == InitialSession(first)
    {
      var a := CreateMatrix(Width, Height);
      arena := a;
      matrix := CreatePiece(first);
      x, y := 0, 0;
      score := 0;
      stage := 1;
      linesCleared := 0;
      linesPerStage := InitialLinesPerStage;
      normalDropInterval := CalculateDropInterval(1);
      dropCounter := 0;
      waiting := false;
      scheduledWaits, scheduledAdvances := 0, 0;
      loopRunning := false;
      new;
      SpawnFitsEmptyArena(first);
      var alive := PlayerReset(first);
      if alive && !loopRunning {
        loopRunning := true;
      }
    }

    /** `playerMove`. */
    method PlayerMove(offset: int)
      requires Valid()
      modifies this
      ensures Valid()
      ensures State() == MoveStep(old(State()), offset)
    {
      ghost var s0 := State();
      x := x + offset;
      if Colliding(arena, matrix, x, y) {
        x := x - offset;
        assert State() == s0;
      } else {
        assert State() == Shifted(s0, offset);
      }
    }

    /** `playerRotate`: the shape is copied into a square array, turned in
        place, and then pushed sideways by 1, -2, 3, ... until it fits or
        the next push would be wider than half the shape plus one. */
    method PlayerRotate(dir: int)
      requires Valid()
      modifies this
      ensures Valid()
      ensures State() == RotateStep(old(State()), dir)
    {
      ghost var s0 := State();
      var rotated := RotatedCopy(matrix, dir);
      RotatedIsShape(s0.matrix, dir);
      var shift := KickFrom(arena, rotated, x, y);
      match shift {
        case None =>
        case Some(d) =>
          matrix := rotated;
          x := x + d;
          assert State() == Turned(s0, rotated, d);
      }
    }

    /** `merge`: copy the piece's blocks that fall inside the arena into it,
        one cell at a time. */
    method Merge()
      requires Valid()
      modifies this
      ensures Valid()
      ensures State() == MergedIn(old(State()))
    {
      ghost var s0 := State();
      var a := arena;
      var i := 0;
      while i < |matrix|
        invariant 0 <= i <= |matrix| && IsArena(a)
        invariant forall r, c :: 0 <= r < Height && 0 <= c < Width ==>
                    a[r][c] == if Covers(matrix, x, y, r, c) && r - y < i then matrix[r - y][c - x] else arena[r][c]
      {
        var j := 0;
        while j < |matrix[i]|
          invariant 0 <= j <= |matrix[i]| && IsArena(a)
          invariant forall r, c :: 0 <= r < Height && 0 <= c < Width ==>
                      a[r][c] == if Covers(matrix, x, y, r, c) && (r - y < i || (r - y == i && c - x < j))
                                 then matrix[r - y][c - x] else arena[r][c]
        {
          var value := matrix[i][j];
          if value != 0 {
            var ay, ax := i + y, j + x;
            if 0 <= ay < Height && 0 <= ax < Width {
              a := a[ay := a[ay][ax := value]];
            }
          }
          j := j + 1;
        }
        i := i + 1;
      }
      SameCells(a, Merged(arena, matrix, x, y));
      MergedInRange(arena, matrix, x, y);
      arena := a;
      assert State() == MergedIn(s0);
    }

    /** `arenaSweep`: remove the full rows, then score them and check
        whether the stage is cleared. */
    method ArenaSweep()
      requires Valid()
      modifies this
      ensures Valid()
      ensures State() == SweepStep(old(State()))
    {
      ghost var s0 := State();
      var a, cleared := SweepRows(arena);
      SweptIsArena(s0.arena);
      arena := a;
      assert State() == Cleared(s0);
      if cleared > 0 {
        score := score + Award(cleared, stage);
        linesCleared := linesCleared + cleared;
        assert State() == Scored(Cleared(s0), cleared);
        if linesCleared >= linesPerStage && !waiting {
          scheduledWaits := scheduledWaits + 1;
          assert State() == StageClearQueued(Scored(Cleared(s0), cleared));
        }
      }
    }

    /** `playerReset`; `alive` is false exactly when the game is over. */
    method PlayerReset(next: Kind) returns (alive: bool)
      requires Valid()
      modifies this
      ensures Valid()
      ensures State() == ResetStep(old(State()), next)
      ensures alive <==> waiting || !Colliding(arena, matrix, x, y)
    {
      ghost var s0 := State();
      if waiting {
        return true;
      }
      matrix := CreatePiece(next);
      y := 0;
      x := Width / 2 - |matrix[0]| / 2;
      assert State() == Spawned(s0, next);
      if Colliding(arena, matrix, x, y) {
        loopRunning := false;
        assert State() == Halted(Spawned(s0, next));
        return false;
      }
      return true;
    }

    /** `playerDrop`. */
    method PlayerDrop(next: Kind)
      requires Valid()
      modifies this
      ensures Valid()
      ensures State() == DropStep(old(State()), next)
    {
      ghost var s0 := State();
      y := y + 1;
      var blocked := Colliding(arena, matrix, x, y);
      if blocked {
        y := y - 1;
        assert State() == s0;
        Lock(next);
      } else {
        assert State() == Fallen(s0);
      }
      assert State() == if blocked then LockStep(s0, next) else Fallen(s0);
      ResetDropCounter();
    }

    /** `dropCounter = 0`, the last statement of both drops. */
    method ResetDropCounter()
      requires Valid()
      modifies this
      ensures Valid()
      ensures State() == CounterReset(old(State()))
    {
      dropCounter := 0;
    }

    /** The tail both drops share: `merge`, `playerReset`, `arenaSweep`. */
    method Lock(next: Kind)
      requires Valid()
      modifies this
      ensures Valid()
      ensures State() == LockStep(old(State()), next)
    {
      ghost var s0 := State();
      Merge();
      var _ := PlayerReset(next);
      ArenaSweep();
    }

    /** `playerDropHard`. */
    method PlayerDropHard(next: Kind)
      requires Valid()
      modifies this
      ensures Valid()
      ensures State() == HardDropStep(old(State()), next)
    {
      ghost var s0 := State();
      y := LandingRow(arena, matrix, x, y);
      assert State() == Landed(s0);
      Lock(next);
      ResetDropCounter();
    }

    /** The first half of `advanceStage`: the next stage with its line
        target and speed, every arena row emptied in place. */
    method EnterNextStage()
      requires Valid() && !waiting
      modifies this
      ensures Valid() && !waiting
      ensures State() == NextStage(old(State()))
    {
      ghost var s0 := State();
      stage := stage + 1;
      linesCleared := 0;
      linesPerStage := LinesForStage(stage);
      normalDropInterval := CalculateDropInterval(stage);
      var a := ClearRows(arena);
      arena := a;
      assert State() == NextStage(s0);
      NextStageKeepsValid(s0);
    }

    /** The state changes of `advanceStage`: the next stage, a new piece,
        and the frame loop requested again when the piece fits. */
    method AdvanceStage(next: Kind)
      requires Valid() && !waiting
      modifies this
      ensures Valid()
      ensures State() == AdvanceStep(old(State()), next)
    {
      EnterNextStage();
      var alive := PlayerReset(next);
      ghost var reset := State();
      if alive && !loopRunning {
        loopRunning := true;
        assert State() == Resumed(reset);
      }
    }

    /** The stage-clear callback run after a 0 ms delay. */
    method BeginWait()
      requires Valid() && scheduledWaits > 0
      modifies this
      ensures Valid()
      ensures State() == BeginWaitStep(old(State()))
    {
      scheduledWaits := scheduledWaits - 1;
      waiting := true;
      loopRunning := false;
      scheduledAdvances := scheduledAdvances + 1;
    }

    /** The callback run 2 s later: stop waiting and advance the stage. */
    method Advance(next: Kind)
      requires Valid() && scheduledAdvances > 0
      modifies this
      ensures Valid()
      ensures State() == AdvanceCallbackStep(old(State()), next)
    {
      ghost var s0 := State();
      scheduledAdvances := scheduledAdvances - 1;
      waiting := false;
      assert State() == Released(s0);
      AdvanceStage(next);
    }

    /** The drop-counter part of `update`: count the elapsed time and drop
        once the counter exceeds the interval. */
    method ApplyGravity(delta: nat, downHeld: bool, next: Kind)
      requires Valid()
      modifies this
      ensures Valid()
      ensures State() == Gravity(old(State()), delta, downHeld, next)
    {
      ghost var s0 := State();
      var interval := if downHeld then FastDropInterval else normalDropInterval;
      dropCounter := dropCounter + delta;
      assert State() == Counted(s0, delta);
      if dropCounter > interval {
        PlayerDrop(next);
      }
    }

    /** One frame of `update`: `delta` is the time since the last frame. */
    method Tick(delta: nat, downHeld: bool, next: Kind)
      requires Valid()
      modifies this
      ensures Valid()
      ensures State() == TickStep(old(State()), delta, downHeld, next)
    {
      if !loopRunning || waiting {
        return;
      }
      ghost var s0 := State();
      ApplyGravity(delta, downHeld, next);
      ghost var g := State();
      loopRunning := true;
      assert State() == Resumed(g);
    }

    /** One frame of `update` with the next frame requested only while the
        loop is still running, so a game over inside the frame stops it. */
    method HaltingTick(delta: nat, downHeld: bool, next: Kind)
      requires Valid()
      modifies this
      ensures Valid()
      ensures State() == HaltingTickStep(old(State()), delta, downHeld, next)
    {
      if !loopRunning || waiting {
        return;
      }
      ApplyGravity(delta, downHeld, next);
    }
  }

  // ---------------------------------------------------------------------
  // Properties

  /** Moving to the next stage keeps the counters consistent with it. */
  lemma NextStageKeepsValid(s: Session)
    requires ValidSession(s)
    ensures ValidSession(NextStage(s))
  {
  }

  /** A stage change leads from a valid session to a valid session. */
  lemma AdvanceKeepsValid(s: Session, next: Kind)
    requires ValidSession(s) && !s.waiting
    ensures ValidSession(AdvanceStep(s, next))
  {
  }

  // Every operation keeps the session invariant.

  lemma InitialSessionValid(first: Kind)
    ensures ValidSession(InitialSession(first))
  {
  }

  lemma MoveKeepsValid(s: Session, d: int)
    requires ValidSession(s)
    ensures ValidSession(MoveStep(s, d))
  {
  }

  lemma RotateKeepsValid(s: Session, dir: int)
    requires ValidSession(s)
    ensures ValidSession(RotateStep(s, dir))
  {
    RotatedIsShape(s.matrix, dir);
  }

  lemma ResetKeepsValid(s: Session, next: Kind)
    requires ValidSession(s)
    ensures ValidSession(ResetStep(s, next))
  {
  }

  lemma SweepKeepsValid(s: Session)
    requires ValidSession(s)
    ensures ValidSession(SweepStep(s))
  {
    SweptIsArena(s.arena);
  }

  lemma LockKeepsValid(s: Session, next: Kind)
    requires ValidSession(s)
    ensures ValidSession(LockStep(s, next))
  {
    var merged := MergedIn(s);
    MergedInRange(s.arena, s.matrix, s.x, s.y);
    ResetKeepsValid(merged, next);
    SweepKeepsValid(ResetStep(merged, next));
  }

  lemma DropKeepsValid(s: Session, next: Kind)
    requires ValidSession(s)
    ensures ValidSession(DropStep(s, next))
  {
    if Colliding(s.arena, s.matrix, s.x, s.y + 1) {
      LockKeepsValid(s, next);
    }
  }

  lemma HardDropKeepsValid(s: Session, next: Kind)
    requires ValidSession(s)
    ensures ValidSession(HardDropStep(s, next))
  {
    LockKeepsValid(Landed(s), next);
  }

  lemma BeginWaitKeepsValid(s: Session)
    requires ValidSession(s) && s.scheduledWaits > 0
    ensures ValidSession(BeginWaitStep(s))
  {
  }

  lemma AdvanceCallbackKeepsValid(s: Session, next: Kind)
    requires ValidSession(s) && s.scheduledAdvances > 0
    ensures ValidSession(AdvanceCallbackStep(s, next))
  {
    AdvanceKeepsValid(Released(s), next);
  }

  lemma CountKeepsValid(s: Session, delta: nat)
    requires ValidSession(s)
    ensures ValidSession(Counted(s, delta))
  {
  }

  lemma GravityKeepsValid(s: Session, delta: nat, downHeld: bool, next: Kind)
    requires ValidSession(s)
    ensures ValidSession(Gravity(s, delta, downHeld, next))
  {
    var counted := Counted(s, delta);
    if counted.dropCounter > CurrentInterval(s, downHeld) {
      DropKeepsValid(counted, next);
    }
  }

  /** A running frame loop is never waiting, so requesting the next frame
      keeps the invariant. */
  lemma TickKeepsValid(s: Session, delta: nat, downHeld: bool, next: Kind)
    requires ValidSession(s)
    ensures ValidSession(TickStep(s, delta, downHeld, next))
  {
    if s.loopRunning && !s.waiting {
      GravityKeepsValid(s, delta, downHeld, next);
    }
  }

  /** Every piece of the catalog fits at its spawn position in an empty
      arena. */
  lemma SpawnFitsEmptyArena(k: Kind)
    ensures !Colliding(ZeroRows(Height, Width), CreatePiece(k), SpawnX(CreatePiece(k)), 0)
  {
    var m := CreatePiece(k);
    assert 3 <= SpawnX(m) && SpawnX(m) + |m| <= 7;
  }
}
