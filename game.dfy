// The game-state engine of script.js as functions on a record of its module-level
// variables. Each function gives the state after one operation of the source; the class
// GameEngine.Engine performs the same operations in place and is proved against these.

module Game {
  import opened Pieces
  import opened Board
  import opened Scoring

  /**
   * The engine's globals: grid, currentPiece, nextPiece, score, highScore, level, lines,
   * gameRunning, isPaused, lastTime, dropCounter, dropInterval, comboCount and
   * clearingLines.
   */
  datatype State = State(
    grid: Grid,
    current: Option<Piece>,
    next: Option<Piece>,
    score: int,
    highScore: int,
    level: int,
    lines: int,
    gameRunning: bool,
    isPaused: bool,
    lastTime: int,
    dropCounter: int,
    dropInterval: real,
    comboCount: int,
    clearingLines: seq<int>)

  /** The keys the keydown handler reacts to; every other key is OtherKey. */
  datatype Key = ArrowLeft | ArrowRight | ArrowDown | Space | ArrowUp | OtherKey

  /** The values the globals have when the script is loaded. */
  function Initial(storedHighScore: int): State
  {
    State(CreateGrid(), None, None, 0, storedHighScore, 1, 0, false, false, 0, 0, START_INTERVAL, 0, [])
  }

  // ---------------------------------------------------------------- invariants

  /** Shape of the data: grid cells, piece records, pending rows and the level counters. */
  predicate Shapes(s: State)
  {
    IsGrid(s.grid) && CellsInRange(s.grid)
    && (s.current.Some? ==> WellFormed(s.current.value))
    && (s.next.Some? ==> WellFormed(s.next.value))
    && DescendingRows(s.clearingLines)
    && s.lines >= 0 && s.level == s.lines / LINES_PER_LEVEL + 1
    && s.dropInterval == DropInterval(s.level)
    && s.comboCount >= 0
  }

  /** The current piece is in a valid position of the grid. */
  predicate PieceFits(s: State)
    requires IsGrid(s.grid) && s.current.Some?
  {
    IsValidMove(s.grid, s.current.value, 0, 0, s.current.value.shape)
  }

  /**
   * While a game runs, or a clear is pending, both pieces exist; while a game runs with
   * no clear pending, the current piece is in a valid position.
   */
  predicate Placed(s: State)
    requires IsGrid(s.grid)
  {
    ((s.gameRunning || s.clearingLines != []) ==> s.current.Some? && s.next.Some?)
    && (s.gameRunning && s.clearingLines == [] ==> s.current.Some? && PieceFits(s))
  }

  predicate ValidCore(s: State)
  {
    Shapes(s) && Placed(s)
  }

  /** ValidCore, and the drop counter never exceeds the level-1 interval. */
  predicate ValidState(s: State)
  {
    ValidCore(s) && s.dropCounter <= 1000
  }

  // ---------------------------------------------------------------- operations

  /** updateScore(n), without the text it writes to the page and the stored record. */
  function UpdateScore(s: State, n: nat): State
    requires s.lines >= 0
  {
    KeepRecord(LevelUp(Credit(s, n)))
  }

  /** The first lines of updateScore(n): n more lines, and their points at the current level and combo. */
  function Credit(s: State, n: nat): State
  {
    s.(lines := s.lines + n, score := s.score + ScoreDelta(n, s.level, s.comboCount))
  }

  /** The level follows the line count, and a new level gets its own interval. */
  function LevelUp(s: State): State
    requires s.lines >= 0
  {
    var newLevel := s.lines / LINES_PER_LEVEL + 1;
    if newLevel > s.level then s.(level := newLevel, dropInterval := DropInterval(newLevel)) else s
  }

  /** A score above the record becomes the record. */
  function KeepRecord(s: State): State
  {
    if s.score > s.highScore then s.(highScore := s.score) else s
  }

  /** gameOver() */
  function GameOver(s: State): State
  {
    s.(gameRunning := false)
  }

  /** nextTurn(), with the kind of the new next piece passed in. */
  function NextTurn(s: State, kind: nat): State
    requires IsGrid(s.grid) && s.next.Some? && kind < KINDS
  {
    var p := s.next.value;
    var s1 := s.(current := Some(p), next := Some(Spawn(kind)));
    if IsValidMove(s1.grid, p, 0, 0, p.shape) then s1 else GameOver(s1)
  }

  /** The synchronous part of triggerLineClear: mark the rows as being cleared. */
  function BeginClear(s: State, rows: seq<int>): State
  {
    s.(clearingLines := rows)
  }

  /**
   * lockPiece(): write the piece into the grid, collect the full rows bottom-up, and either
   * start a clear (combo + 1) or reset the combo and go to the next turn.
   */
  function Lock(s: State, kind: nat): State
    requires IsGrid(s.grid) && s.current.Some? && s.next.Some? && PieceFits(s) && kind < KINDS
  {
    var g := Stamp(s.grid, s.current.value);
    var full := FullRows(g);
    if |full| > 0 then BeginClear(s.(grid := g, comboCount := s.comboCount + 1), full)
    else NextTurn(s.(grid := g, comboCount := 0), kind)
  }

  /**
   * The delayed continuation of triggerLineClear: remove the rows, score them, clear the
   * pending list and go to the next turn.
   */
  function FinishClear(s: State, kind: nat): State
    requires Shapes(s) && s.next.Some? && s.clearingLines != [] && kind < KINDS
  {
    ClearRowsKeepsGrid(s.grid, s.clearingLines);
    var s1 := s.(grid := ClearRows(s.grid, s.clearingLines));
    var s2 := UpdateScore(s1, |s.clearingLines|);
    NextTurn(s2.(clearingLines := []), kind)
  }

  /** The current piece moved by dx columns and dy rows. */
  function Moved(s: State, dx: int, dy: int): State
    requires s.current.Some?
  {
    var p := s.current.value;
    s.(current := Some(p.(x := p.x + dx, y := p.y + dy)))
  }

  /**
   * The first lines of update(time): the clock moves to time and, with no clear pending,
   * the elapsed time is added to the drop counter.
   */
  function Tick(s: State, time: int): State
  {
    var delta := time - s.lastTime;
    if s.clearingLines != [] then s.(lastTime := time)
    else s.(lastTime := time, dropCounter := s.dropCounter + delta)
  }

  /** `dropCounter = 0` */
  function ResetCounter(s: State): State
  {
    s.(dropCounter := 0)
  }

  /** The body of update once the counter has passed the interval: fall one row or lock. */
  function Gravity(s: State, kind: nat): State
    requires ValidCore(s) && s.gameRunning && s.clearingLines == [] && kind < KINDS
  {
    var p := s.current.value;
    ResetCounter(if IsValidMove(s.grid, p, 0, 1, p.shape) then Moved(s, 0, 1) else Lock(s, kind))
  }

  /** update(time): the gravity step of the frame loop. */
  function Update(s: State, time: int, kind: nat): State
    requires ValidCore(s) && kind < KINDS
  {
    if !s.gameRunning || s.isPaused then s
    else
      var s1 := Tick(s, time);
      if s1.clearingLines == [] && s1.dropCounter as real > s1.dropInterval then Gravity(s1, kind)
      else s1
  }

  /** The assignments of hardDrop before it locks: the piece goes to row y, 2 points per row fallen. */
  function DropTo(s: State, y: int): State
    requires s.current.Some?
  {
    var p := s.current.value;
    s.(current := Some(p.(y := y)), score := s.score + (y - p.y) * 2)
  }

  /** hardDrop(): move the piece to its landing row, 2 points per row, then lock it. */
  function HardDrop(s: State, kind: nat): State
    requires ValidCore(s) && kind < KINDS
  {
    if s.current.None? || !s.gameRunning || s.isPaused || s.clearingLines != [] then s
    else
      var p := s.current.value;
      var ghostY := GhostRow(s.grid, p);
      WellFormedShape(p);
      LandingFits(s.grid, p);
      Lock(DropTo(s, ghostY), kind)
  }

  /** `score += n` outside updateScore: no line, level or record bookkeeping. */
  function AddPoints(s: State, n: int): State
  {
    s.(score := s.score + n)
  }

  /** The left and right keys: the piece moves dx columns when the moved piece is valid. */
  function Shift(s: State, dx: int): State
    requires s.current.Some? && IsGrid(s.grid)
  {
    var p := s.current.value;
    if IsValidMove(s.grid, p, dx, 0, p.shape) then Moved(s, dx, 0) else s
  }

  /**
   * The down key: the piece moves one row down when that is valid; in either case 1 point
   * is added and updateScore(0) runs. It never locks the piece.
   */
  function SoftDrop(s: State): State
    requires s.current.Some? && IsGrid(s.grid) && s.lines >= 0
  {
    var p := s.current.value;
    var s1 := if IsValidMove(s.grid, p, 0, 1, p.shape) then Moved(s, 0, 1) else s;
    UpdateScore(AddPoints(s1, 1), 0)
  }

  /** The up key: the next rotation state replaces the piece when its shape is valid there. */
  function Rotate(s: State): State
    requires s.current.Some? && IsGrid(s.grid) && WellFormed(s.current.value)
  {
    var p := s.current.value;
    var q := Rotated(p);
    if IsValidMove(s.grid, p, 0, 0, q.shape) then s.(current := Some(q)) else s
  }

  /** The keydown handler. */
  function KeyDown(s: State, key: Key, kind: nat): State
    requires ValidCore(s) && kind < KINDS
  {
    if !s.gameRunning || s.isPaused || s.current.None? || s.clearingLines != [] then s
    else
      match key
      case ArrowLeft => Shift(s, -1)
      case ArrowRight => Shift(s, 1)
      case ArrowDown => SoftDrop(s)
      case Space => HardDrop(s, kind)
      case ArrowUp => Rotate(s)
      case OtherKey => s
  }

  /**
   * The assignments of startGame(): running and unpaused, a fresh grid, the two given
   * pieces, score 0, level 1, no lines, a 1000 ms interval, no combo and the clock read
   * as now. The record, the drop counter and any pending clear are kept.
   */
  function Reset(s: State, now: int, first: nat, second: nat): State
    requires first < KINDS && second < KINDS
  {
    State(CreateGrid(), Some(Spawn(first)), Some(Spawn(second)), 0, s.highScore, 1, 0,
          true, false, now, s.dropCounter, START_INTERVAL, 0, s.clearingLines)
  }

  /** The assignments of startGame() followed by its updateScore(0) call. */
  function Restart(s: State, now: int, first: nat, second: nat): State
    requires first < KINDS && second < KINDS
  {
    UpdateScore(Reset(s, now, first, second), 0)
  }

  /**
   * startGame(): Restart followed by the clock step of its update() call, whose time
   * defaults to 0, so the elapsed time is -now; that call can neither move nor lock the
   * piece (StartGameIsUpdate).
   */
  function StartGame(s: State, now: int, first: nat, second: nat): State
    requires first < KINDS && second < KINDS
  {
    Tick(Restart(s, now, first, second), 0)
  }

  /** togglePause(): on resume, the clock restarts at now and update() runs with time 0. */
  function TogglePause(s: State, now: int, kind: nat): State
    requires ValidCore(s) && kind < KINDS
  {
    if !s.gameRunning then s
    else if !s.isPaused then Pause(s)
    else Update(Resume(s, now), 0, kind)
  }

  /**
   * backToMenu(): the game stops and is no longer paused. Grid, pieces, counters and any
   * pending clear stay as they are, so a pending clear timer still fires afterwards.
   */
  function BackToMenu(s: State): State
  {
    s.(gameRunning := false, isPaused := false)
  }

  function Pause(s: State): State
  {
    s.(isPaused := true)
  }

  /** Unpausing restarts the clock at now. */
  function Resume(s: State, now: int): State
  {
    s.(isPaused := false, lastTime := now)
  }
}
