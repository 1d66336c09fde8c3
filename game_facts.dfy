// What the operations of module Game promise: the invariants every operation keeps, and
// the effect of each operation stated in the terms the game uses.

module GameFacts {
  import opened Pieces
  import opened Board
  import opened Scoring
  import opened Game

  /** The globals as the script loads them satisfy the invariants. */
  lemma InitialValid(storedHighScore: int)
    ensures ValidState(Initial(storedHighScore))
  {
    var s := Initial(storedHighScore);
    CreateGridFacts();
    assert IsGrid(s.grid) && CellsInRange(s.grid);
    assert DescendingRows(s.clearingLines);
    assert s.level == s.lines / LINES_PER_LEVEL + 1;
    assert s.dropInterval == DropInterval(s.level);
    assert Shapes(s);
    assert Placed(s);
  }

  // ---------------------------------------------------------------- scoring

  /**
   * updateScore(n) adds n to the lines and the combo-scaled points of n lines at the old
   * level to the score; the level never drops and becomes floor(lines / 10) + 1, with the
   * interval of the new level; the record ends at least as high as the score.
   */
  lemma UpdateScoreEffect(s: State, n: nat)
    requires Shapes(s)
    ensures Shapes(UpdateScore(s, n))
    ensures UpdateScore(s, n).lines == s.lines + n
    ensures UpdateScore(s, n).score == s.score + ScoreDelta(n, s.level, s.comboCount)
    ensures UpdateScore(s, n).level >= s.level
    ensures UpdateScore(s, n).level == UpdateScore(s, n).lines / LINES_PER_LEVEL + 1
    ensures UpdateScore(s, n).dropInterval <= s.dropInterval
    ensures UpdateScore(s, n).highScore >= UpdateScore(s, n).score
    ensures UpdateScore(s, n).highScore >= s.highScore
  {
    var r := UpdateScore(s, n);
    DropIntervalMonotone(s.level, r.level);
  }

  /**
   * updateScore(0) leaves score, lines and level as they were, and no call touches any
   * global other than the five it assigns.
   */
  lemma UpdateScoreFrame(s: State, n: nat)
    requires Shapes(s)
    ensures n == 0 ==> UpdateScore(s, n).score == s.score && UpdateScore(s, n).lines == s.lines
                       && UpdateScore(s, n).level == s.level
    ensures UpdateScore(s, n).(score := s.score, highScore := s.highScore, level := s.level,
                               lines := s.lines, dropInterval := s.dropInterval) == s
  {
  }

  // ---------------------------------------------------------------- turns and locking

  /**
   * nextTurn promotes the next piece, spawns a new next piece of the given kind, and ends
   * the game exactly when the promoted piece does not fit; the invariants hold afterwards.
   */
  lemma NextTurnEffect(s: State, kind: nat)
    requires Shapes(s) && s.next.Some? && kind < KINDS
    ensures ValidCore(NextTurn(s, kind))
    ensures NextTurn(s, kind).current == s.next && NextTurn(s, kind).next == Some(Spawn(kind))
    ensures NextTurn(s, kind).gameRunning <==> s.gameRunning && PieceFits(NextTurn(s, kind))
    ensures NextTurn(s, kind).grid == s.grid && NextTurn(s, kind).score == s.score
    ensures NextTurn(s, kind).comboCount == s.comboCount && NextTurn(s, kind).dropCounter == s.dropCounter
  {
  }

  /**
   * lockPiece writes the piece into the grid and lists the full rows bottom-up. With at
   * least one full row it increments the combo and leaves the pieces in place until the
   * clear finishes; with none it resets the combo and advances to the next turn.
   */
  lemma LockEffect(s: State, kind: nat)
    requires ValidCore(s) && s.gameRunning && s.clearingLines == [] && kind < KINDS
    ensures ValidCore(Lock(s, kind))
    ensures Lock(s, kind).grid == Stamp(s.grid, s.current.value)
    ensures Lock(s, kind).dropCounter == s.dropCounter && Lock(s, kind).score == s.score
    ensures Lock(s, kind).lines == s.lines
    ensures FullRows(Lock(s, kind).grid) != [] ==>
              Lock(s, kind).comboCount == s.comboCount + 1
              && Lock(s, kind).clearingLines == FullRows(Lock(s, kind).grid)
              && Lock(s, kind).current == s.current && Lock(s, kind).next == s.next
    ensures FullRows(Lock(s, kind).grid) == [] ==>
              Lock(s, kind).comboCount == 0 && Lock(s, kind).clearingLines == []
              && Lock(s, kind).current == s.next && Lock(s, kind).next == Some(Spawn(kind))
  {
    LockValid(s, kind);
  }

  /** Locking keeps the invariants and the drop counter, score and lines. */
  lemma LockValid(s: State, kind: nat)
    requires ValidCore(s) && s.gameRunning && s.clearingLines == [] && kind < KINDS
    ensures ValidCore(Lock(s, kind))
    ensures Lock(s, kind).grid == Stamp(s.grid, s.current.value)
    ensures Lock(s, kind).dropCounter == s.dropCounter && Lock(s, kind).score == s.score
    ensures Lock(s, kind).lines == s.lines
  {
    var p := s.current.value;
    StampCells(s.grid, p);
    var g := Stamp(s.grid, p);
    if FullRows(g) == [] {
      NextTurnEffect(s.(grid := g, comboCount := 0), kind);
    }
  }

  /**
   * The end of a clear: the grid is the program's row removal applied to the pending rows,
   * the lines and points of that many rows are added at the level and combo in force,
   * nothing is pending any more and the next turn has begun; the combo carries over.
   */
  lemma FinishClearEffect(s: State, kind: nat)
    requires ValidState(s) && s.clearingLines != [] && kind < KINDS
    ensures ValidState(FinishClear(s, kind))
    ensures FinishClear(s, kind).grid == ClearRows(s.grid, s.clearingLines)
    ensures FinishClear(s, kind).lines == s.lines + |s.clearingLines|
    ensures FinishClear(s, kind).score == s.score + ScoreDelta(|s.clearingLines|, s.level, s.comboCount)
    ensures FinishClear(s, kind).clearingLines == [] && FinishClear(s, kind).current == s.next
    ensures FinishClear(s, kind).comboCount == s.comboCount
  {
    ClearRowsKeepsGrid(s.grid, s.clearingLines);
    var s1 := s.(grid := ClearRows(s.grid, s.clearingLines));
    UpdateScoreEffect(s1, |s.clearingLines|);
    UpdateScoreFrame(s1, |s.clearingLines|);
    var s2 := UpdateScore(s1, |s.clearingLines|);
    NextTurnEffect(s2.(clearingLines := []), kind);
  }

  // ---------------------------------------------------------------- gravity

  /**
   * One frame of the loop: nothing happens while stopped or paused; otherwise the clock
   * advances, and with no clear pending the elapsed time accumulates until it passes the
   * interval, when the piece moves down one row if it can and is locked if it cannot, and
   * the counter restarts from 0.
   */
  lemma UpdateEffect(s: State, time: int, kind: nat)
    requires ValidState(s) && kind < KINDS
    ensures !s.gameRunning || s.isPaused ==> Update(s, time, kind) == s
    ensures s.gameRunning && !s.isPaused && s.clearingLines != [] ==>
              Update(s, time, kind) == s.(lastTime := time)
    ensures var c := s.dropCounter + (time - s.lastTime);
            s.gameRunning && !s.isPaused && s.clearingLines == [] && c as real <= s.dropInterval ==>
              Update(s, time, kind) == s.(lastTime := time, dropCounter := c)
    ensures var c := s.dropCounter + (time - s.lastTime);
            s.gameRunning && !s.isPaused && s.clearingLines == [] && c as real > s.dropInterval ==>
              var p := s.current.value;
              IsValidMove(s.grid, p, 0, 1, p.shape) ==>
                Update(s, time, kind) == s.(lastTime := time, dropCounter := 0, current := Some(p.(y := p.y + 1)))
    ensures var c := s.dropCounter + (time - s.lastTime);
            s.gameRunning && !s.isPaused && s.clearingLines == [] && c as real > s.dropInterval ==>
              var p := s.current.value;
              !IsValidMove(s.grid, p, 0, 1, p.shape) ==>
                Update(s, time, kind) == Lock(s.(lastTime := time, dropCounter := c), kind).(dropCounter := 0)
  {
  }

  /** The frame step keeps the invariants. */
  lemma UpdateValid(s: State, time: int, kind: nat)
    requires ValidState(s) && kind < KINDS
    ensures ValidState(Update(s, time, kind))
  {
    if s.gameRunning && !s.isPaused {
      var s1 := Tick(s, time);
      assert ValidCore(s1);
      if s1.clearingLines == [] && s1.dropCounter as real > s1.dropInterval {
        GravityValid(s1, kind);
      } else {
        DropIntervalMonotone(1, s.level);
      }
    }
  }

  /** Falling one row or locking keeps the invariants, and the counter restarts. */
  lemma GravityValid(s: State, kind: nat)
    requires ValidCore(s) && s.gameRunning && s.clearingLines == [] && kind < KINDS
    ensures ValidState(Gravity(s, kind))
  {
    var p := s.current.value;
    if IsValidMove(s.grid, p, 0, 1, p.shape) {
      assert PieceFits(Moved(s, 0, 1));
    } else {
      LockValid(s, kind);
    }
  }

  // ---------------------------------------------------------------- commands

  /** hardDrop does nothing unless a game runs unpaused with a current piece and no clear pending. */
  lemma HardDropIdle(s: State, kind: nat)
    requires ValidState(s) && kind < KINDS
    requires s.current.None? || !s.gameRunning || s.isPaused || s.clearingLines != []
    ensures HardDrop(s, kind) == s
  {
  }

  /**
   * Otherwise it moves the piece down by d >= 0 rows to its ghost row, adds 2 * d points,
   * and locks it there. It never updates the record, even when the new score passes it.
   */
  lemma HardDropEffect(s: State, kind: nat)
    requires ValidState(s) && kind < KINDS
    requires s.current.Some? && s.gameRunning && !s.isPaused && s.clearingLines == []
    ensures var p := s.current.value;
            var d := GhostRow(s.grid, p) - p.y;
            d >= 0
            && HardDrop(s, kind).score == s.score + 2 * d
            && HardDrop(s, kind).grid == Stamp(s.grid, p.(y := p.y + d))
            && HardDrop(s, kind).highScore == s.highScore
  {
    var p := s.current.value;
    var ghostY := GhostRow(s.grid, p);
    WellFormedShape(p);
    LandingStops(s.grid, p, p.y);
    HardDropLocks(s, kind, ghostY);
    LockValid(DropTo(s, ghostY), kind);
    assert p.(y := p.y + (ghostY - p.y)) == p.(y := ghostY);
  }

  /** A hard drop keeps the invariants. */
  lemma HardDropValid(s: State, kind: nat)
    requires ValidState(s) && kind < KINDS
    ensures ValidState(HardDrop(s, kind))
  {
    if s.current.Some? && s.gameRunning && !s.isPaused && s.clearingLines == [] {
      var p := s.current.value;
      var ghostY := GhostRow(s.grid, p);
      HardDropLocks(s, kind, ghostY);
      LockValid(DropTo(s, ghostY), kind);
      var r := Lock(DropTo(s, ghostY), kind);
      assert ValidState(r);
      assert HardDrop(s, kind) == r;
    } else {
      HardDropIdle(s, kind);
    }
  }

  /** A hard drop that acts is a lock after moving the piece to its ghost row. */
  lemma HardDropLocks(s: State, kind: nat, ghostY: int)
    requires ValidState(s) && kind < KINDS
    requires s.current.Some? && s.gameRunning && !s.isPaused && s.clearingLines == []
    requires ghostY == GhostRow(s.grid, s.current.value)
    ensures ValidCore(DropTo(s, ghostY))
    ensures HardDrop(s, kind) == Lock(DropTo(s, ghostY), kind)
  {
    WellFormedShape(s.current.value);
    LandingFits(s.grid, s.current.value);
  }

  /** The space key is a hard drop. */
  lemma SpaceIsHardDrop(s: State, kind: nat)
    requires ValidState(s) && kind < KINDS
    ensures KeyDown(s, Space, kind) == HardDrop(s, kind)
  {
  }

  /** No key does anything while the game is stopped, paused, pieceless or clearing. */
  lemma KeyDownGuard(s: State, key: Key, kind: nat)
    requires ValidState(s) && kind < KINDS
    requires !s.gameRunning || s.isPaused || s.current.None? || s.clearingLines != []
    ensures KeyDown(s, key, kind) == s
  {
  }

  /**
   * Left and right move the piece one column exactly when the moved piece is valid, and
   * otherwise leave the state as it was.
   */
  lemma SideMoveEffect(s: State, kind: nat)
    requires ValidState(s) && kind < KINDS
    requires s.gameRunning && !s.isPaused && s.clearingLines == []
    ensures var p := s.current.value;
            (KeyDown(s, ArrowLeft, kind) != s <==> IsValidMove(s.grid, p, -1, 0, p.shape))
            && (KeyDown(s, ArrowLeft, kind) != s ==> KeyDown(s, ArrowLeft, kind) == s.(current := Some(p.(x := p.x - 1))))
            && (KeyDown(s, ArrowRight, kind) != s <==> IsValidMove(s.grid, p, 1, 0, p.shape))
            && (KeyDown(s, ArrowRight, kind) != s ==> KeyDown(s, ArrowRight, kind) == s.(current := Some(p.(x := p.x + 1))))
  {
    var p := s.current.value;
    assert Moved(s, -1, 0).current.value.x == p.x - 1;
    assert Moved(s, 1, 0).current.value.x == p.x + 1;
  }

  /**
   * Soft drop adds exactly 1 point whether or not the piece could move down, moves it down
   * one row only when that is valid, never locks it, and leaves the record at least at the score.
   */
  lemma SoftDropAlwaysScores(s: State, kind: nat)
    requires ValidState(s) && kind < KINDS
    requires s.gameRunning && !s.isPaused && s.clearingLines == []
    ensures var p := s.current.value;
            var r := KeyDown(s, ArrowDown, kind);
            r.score == s.score + 1 && r.highScore >= r.score
            && r.grid == s.grid && r.next == s.next && r.clearingLines == [] && r.lines == s.lines
            && r.current == (if IsValidMove(s.grid, p, 0, 1, p.shape) then Some(p.(y := p.y + 1)) else s.current)
  {
    var p := s.current.value;
    var s1 := if IsValidMove(s.grid, p, 0, 1, p.shape) then Moved(s, 0, 1) else s;
    UpdateScoreEffect(AddPoints(s1, 1), 0);
    UpdateScoreFrame(AddPoints(s1, 1), 0);
  }

  /**
   * Rotate commits the next rotation state of the kind only when that shape is valid at
   * the same position; otherwise the state is unchanged. The rotation index stays within
   * the kind's state count.
   */
  lemma RotateEffect(s: State, kind: nat)
    requires ValidState(s) && kind < KINDS
    requires s.gameRunning && !s.isPaused && s.clearingLines == []
    ensures var p := s.current.value;
            var r := KeyDown(s, ArrowUp, kind);
            (if IsValidMove(s.grid, p, 0, 0, Table[p.kind][(p.rotation + 1) % |Table[p.kind]|])
             then r == s.(current := Some(Rotated(p))) else r == s)
            && r.current.value.rotation < |Table[r.current.value.kind]|
  {
  }

  /** Replacing the current piece by a well-formed piece that fits keeps the invariants. */
  lemma ReplacePieceValid(s: State, q: Piece)
    requires ValidState(s) && s.current.Some?
    requires WellFormed(q) && IsValidMove(s.grid, q, 0, 0, q.shape)
    ensures ValidState(s.(current := Some(q)))
  {
  }

  /** Moving the current piece to a valid position keeps the invariants. */
  lemma MovedValid(s: State, dx: int, dy: int)
    requires ValidState(s) && s.current.Some?
    requires IsValidMove(s.grid, s.current.value, dx, dy, s.current.value.shape)
    ensures ValidState(Moved(s, dx, dy))
  {
  }

  lemma ShiftValid(s: State, dx: int)
    requires ValidState(s) && s.current.Some?
    ensures ValidState(Shift(s, dx))
  {
    var p := s.current.value;
    if IsValidMove(s.grid, p, dx, 0, p.shape) {
      MovedValid(s, dx, 0);
    }
  }

  lemma SoftDropValid(s: State)
    requires ValidState(s) && s.current.Some?
    ensures ValidState(SoftDrop(s))
  {
    var p := s.current.value;
    var s1 := s;
    if IsValidMove(s.grid, p, 0, 1, p.shape) {
      MovedValid(s, 0, 1);
      s1 := Moved(s, 0, 1);
    }
    UpdateScoreEffect(AddPoints(s1, 1), 0);
    UpdateScoreFrame(AddPoints(s1, 1), 0);
  }

  lemma RotateValid(s: State)
    requires ValidState(s) && s.current.Some?
    ensures ValidState(Rotate(s))
  {
    var p := s.current.value;
    if IsValidMove(s.grid, p, 0, 0, Rotated(p).shape) {
      ReplacePieceValid(s, Rotated(p));
    }
  }

  /** Every key keeps the invariants. */
  lemma KeyDownValid(s: State, key: Key, kind: nat)
    requires ValidState(s) && kind < KINDS
    ensures ValidState(KeyDown(s, key, kind))
  {
    if s.gameRunning && !s.isPaused && s.current.Some? && s.clearingLines == [] {
      match key
      case ArrowLeft => ShiftValid(s, -1);
      case ArrowRight => ShiftValid(s, 1);
      case ArrowDown => SoftDropValid(s);
      case Space => HardDropValid(s, kind);
      case ArrowUp => RotateValid(s);
      case OtherKey =>
    }
  }

  // ---------------------------------------------------------------- start and pause

  /** What the assignments of startGame and its updateScore(0) leave behind. */
  lemma RestartFacts(s: State, now: int, first: nat, second: nat)
    requires ValidState(s) && first < KINDS && second < KINDS
    ensures var r := Restart(s, now, first, second);
            ValidState(r) && r.gameRunning && !r.isPaused && r.lastTime == now
            && r.dropInterval == START_INTERVAL && r.dropCounter == s.dropCounter
            && r.clearingLines == s.clearingLines && r.grid == CreateGrid()
            && r.current == Some(Spawn(first)) && r.next == Some(Spawn(second))
            && r.score == 0 && r.level == 1 && r.lines == 0 && r.comboCount == 0
  {
    var s1 := Reset(s, now, first, second);
    CreateGridFacts();
    SpawnFitsEmptyGrid(first);
    DropIntervalMonotone(1, 1);
    UpdateScoreEffect(s1, 0);
    UpdateScoreFrame(s1, 0);
  }

  /**
   * A frame in a running, unpaused game whose counter does not pass the interval only
   * advances the clock and, with no clear pending, the counter.
   */
  lemma UpdateQuiet(r: State, time: int, kind: nat)
    requires ValidCore(r) && kind < KINDS && r.gameRunning && !r.isPaused
    requires r.clearingLines == [] ==> (r.dropCounter + (time - r.lastTime)) as real <= r.dropInterval
    ensures Update(r, time, kind) == Tick(r, time)
  {
  }

  /**
   * The update(0) at the end of startGame cannot move or lock a piece: with now >= 0 the
   * elapsed time is not positive, and the counter (at most 1000) cannot pass the fresh
   * 1000 ms interval. So StartGame is Restart followed by Update at time 0, for any kind.
   */
  lemma StartGameIsUpdate(s: State, now: int, first: nat, second: nat, kind: nat)
    requires ValidState(s) && now >= 0 && first < KINDS && second < KINDS && kind < KINDS
    ensures ValidState(Restart(s, now, first, second))
    ensures StartGame(s, now, first, second) == Update(Restart(s, now, first, second), 0, kind)
  {
    RestartFacts(s, now, first, second);
    UpdateQuiet(Restart(s, now, first, second), 0, kind);
  }

  /**
   * startGame leaves a running, unpaused game on an empty grid with the two given pieces,
   * score 0, level 1, no lines and no combo, and keeps the invariants.
   */
  lemma StartGameEffect(s: State, now: int, first: nat, second: nat)
    requires ValidState(s) && now >= 0 && first < KINDS && second < KINDS
    ensures ValidState(StartGame(s, now, first, second))
    ensures var r := StartGame(s, now, first, second);
            r.gameRunning && !r.isPaused && r.grid == CreateGrid()
            && r.current == Some(Spawn(first)) && r.next == Some(Spawn(second))
            && r.score == 0 && r.level == 1 && r.lines == 0 && r.comboCount == 0
  {
    StartGameIsUpdate(s, now, first, second, 0);
    UpdateValid(Restart(s, now, first, second), 0, 0);
  }

  /**
   * togglePause does nothing unless a game runs; pausing only sets the flag; resuming
   * restarts the clock at now and runs update with time 0.
   */
  lemma TogglePauseEffect(s: State, now: int, kind: nat)
    requires ValidState(s) && kind < KINDS
    ensures ValidState(TogglePause(s, now, kind))
    ensures !s.gameRunning ==> TogglePause(s, now, kind) == s
    ensures s.gameRunning && !s.isPaused ==> TogglePause(s, now, kind) == s.(isPaused := true)
    ensures s.gameRunning && s.isPaused ==>
              TogglePause(s, now, kind) == Update(s.(isPaused := false, lastTime := now), 0, kind)
  {
    if s.gameRunning && s.isPaused {
      UpdateValid(Resume(s, now), 0, kind);
    }
  }

  /**
   * backToMenu stops the game and clears the pause flag, and changes nothing else: the
   * grid, the pieces, the score and a pending clear all stay. The invariant is kept.
   */
  lemma BackToMenuEffect(s: State)
    requires ValidState(s)
    ensures ValidState(BackToMenu(s))
    ensures !BackToMenu(s).gameRunning && !BackToMenu(s).isPaused
    ensures BackToMenu(s).(gameRunning := s.gameRunning, isPaused := s.isPaused) == s
  {
  }

  // ---------------------------------------------------------------- sessions

  /**
   * What can happen to the engine: a click on a start button, an animation frame, a key,
   * the pause button, a menu button, or the firing of the 150 ms line-clear timer. Piece kinds that the
   * source draws with Math.random, and clock readings, are carried by the event.
   */
  datatype Event =
    | Start(now: int, first: nat, second: nat)
    | Frame(time: int, kind: nat)
    | Press(key: Key, kind: nat)
    | PauseButton(now: int, kind: nat)
    | MenuButton
    | ClearTimer(kind: nat)

  predicate EventOk(e: Event)
  {
    match e
    case Start(now, first, second) => now >= 0 && first < KINDS && second < KINDS
    case Frame(_, kind) => kind < KINDS
    case Press(_, kind) => kind < KINDS
    case PauseButton(_, kind) => kind < KINDS
    case MenuButton => true
    case ClearTimer(kind) => kind < KINDS
  }

  /** The state after one event; the clear timer exists only while a clear is pending. */
  function Apply(s: State, e: Event): (r: State)
    requires ValidState(s) && EventOk(e)
    ensures ValidState(r)
  {
    match e
    case Start(now, first, second) => StartGameEffect(s, now, first, second); StartGame(s, now, first, second)
    case Frame(time, kind) => UpdateValid(s, time, kind); Update(s, time, kind)
    case Press(key, kind) => KeyDownValid(s, key, kind); KeyDown(s, key, kind)
    case PauseButton(now, kind) => TogglePauseEffect(s, now, kind); TogglePause(s, now, kind)
    case MenuButton => BackToMenuEffect(s); BackToMenu(s)
    case ClearTimer(kind) =>
      if s.clearingLines != [] then FinishClearEffect(s, kind); FinishClear(s, kind) else s
  }

  /**
   * The state after a sequence of events. Every state reached keeps the invariants, in
   * particular level == lines / 10 + 1 and cells within 0..7.
   */
  function Run(s: State, es: seq<Event>): (r: State)
    requires ValidState(s) && forall i :: 0 <= i < |es| ==> EventOk(es[i])
    ensures ValidState(r)
    decreases |es|
  {
    if es == [] then s else Run(Apply(s, es[0]), es[1..])
  }

  /** From the globals the script loads with, every session keeps the invariants. */
  lemma SessionsStayValid(storedHighScore: int, es: seq<Event>)
    requires forall i :: 0 <= i < |es| ==> EventOk(es[i])
    ensures ValidState(Initial(storedHighScore))
    ensures var r := Run(Initial(storedHighScore), es);
            r.level == r.lines / LINES_PER_LEVEL + 1 && IsGrid(r.grid) && CellsInRange(r.grid)
  {
    InitialValid(storedHighScore);
  }
}
