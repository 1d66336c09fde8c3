// The engine of script.js as one object: its module-level variables are the fields of
// Engine, and its functions are methods that update those fields in place. Each method is
// proved to leave the object in the state the matching function of module Game computes,
// so the properties proved in GameFacts and Board hold for the object as well.

module GameEngine {
  import opened Pieces
  import opened Board
  import opened Scoring
  import opened Game
  import opened GameFacts

  class Engine {
    /** The playfield: ROWS row arrays of COLS cells, 0 when empty, else colour + 1. */
    var grid: array<seq<int>>
    var currentPiece: Option<Piece>
    var nextPiece: Option<Piece>
    var score: int
    var highScore: int
    var level: int
    var lines: int
    var gameRunning: bool
    var isPaused: bool
    var lastTime: int
    var dropCounter: int
    var dropInterval: real
    var comboCount: int
    var clearingLines: seq<int>

    /** The fields as a value of Game.State. */
    ghost function Snapshot(): State
      reads this, grid
    {
      State(grid[..], currentPiece, nextPiece, score, highScore, level, lines, gameRunning,
            isPaused, lastTime, dropCounter, dropInterval, comboCount, clearingLines)
    }

    ghost predicate Valid()
      reads this, grid
    {
      ValidState(Snapshot())
    }

    /** The globals as the script declares them on load. */
    constructor (storedHighScore: int)
      ensures Valid() && fresh(grid)
      ensures Snapshot() == Initial(storedHighScore)
    {
      grid := new seq<int>[ROWS](_ => EmptyRow());
      currentPiece := None;
      nextPiece := None;
      score := 0;
      highScore := storedHighScore;
      level := 1;
      lines := 0;
      gameRunning := false;
      isPaused := false;
      lastTime := 0;
      dropCounter := 0;
      dropInterval := START_INTERVAL;
      comboCount := 0;
      clearingLines := [];
      new;
      assert grid[..] == CreateGrid();
      InitialValid(storedHighScore);
    }

    /** updateScore(n): lines, score with the Tetris bonus and combo factor, level, record. */
    method UpdateScore(n: nat)
      requires lines >= 0
      modifies this
      ensures grid == old(grid)
      ensures Snapshot() == Game.UpdateScore(old(Snapshot()), n)
    {
      ghost var s0 := Snapshot();
      lines := lines + n;
      var basePoints := n * 100 * level;
      if n == 4 {
        basePoints := basePoints + 400;
      }
      score := score + basePoints * (if comboCount > 0 then comboCount else 1);
      assert Snapshot() == Credit(s0, n);
      LevelUp();
      ghost var s2 := Snapshot();
      if score > highScore {
        highScore := score;
      }
      assert Snapshot() == KeepRecord(s2);
    }

    /** The level step of updateScore: the level follows the line count, with its interval. */
    method LevelUp()
      requires lines >= 0
      modifies this
      ensures grid == old(grid)
      ensures Snapshot() == Game.LevelUp(old(Snapshot()))
    {
      var newLevel := lines / LINES_PER_LEVEL + 1;
      if newLevel > level {
        level := newLevel;
        dropInterval := DropInterval(level);
      }
    }

    /** gameOver() */
    method GameOver()
      modifies this
      ensures grid == old(grid)
      ensures Snapshot() == Game.GameOver(old(Snapshot()))
    {
      gameRunning := false;
    }

    /** nextTurn(): the next piece becomes current; the game ends if it does not fit. */
    method NextTurn(kind: nat)
      requires IsGrid(grid[..]) && nextPiece.Some? && kind < KINDS
      modifies this
      ensures grid == old(grid)
      ensures Snapshot() == Game.NextTurn(old(Snapshot()), kind)
    {
      currentPiece := nextPiece;
      nextPiece := Some(Spawn(kind));
      var p := currentPiece.value;
      if !IsValidMove(grid[..], p, 0, 0, p.shape) {
        GameOver();
      }
    }

    /** triggerLineClear up to the timer: the rows become the pending clear. */
    method BeginClear(rows: seq<int>)
      modifies this
      ensures grid == old(grid)
      ensures Snapshot() == Game.BeginClear(old(Snapshot()), rows)
    {
      clearingLines := rows;
    }

    /**
     * lockPiece(): write colour + 1 into every occupied cell of the piece on or below row 0,
     * then collect the full rows from the bottom up.
     */
    method LockPiece(kind: nat)
      requires IsGrid(grid[..]) && currentPiece.Some? && nextPiece.Some? && kind < KINDS
      requires PieceFits(Snapshot())
      modifies this, grid
      ensures grid == old(grid)
      ensures Snapshot() == Game.Lock(old(Snapshot()), kind)
    {
      var p := currentPiece.value;
      ghost var s0 := Snapshot();
      StampPiece(p);
      assert Snapshot() == s0.(grid := Stamp(s0.grid, p));

      var linesToClear := FindFullRows();
      if |linesToClear| > 0 {
        comboCount := comboCount + 1;
        assert Snapshot() == s0.(grid := Stamp(s0.grid, p), comboCount := s0.comboCount + 1);
        BeginClear(linesToClear);
      } else {
        comboCount := 0;
        assert Snapshot() == s0.(grid := Stamp(s0.grid, p), comboCount := 0);
        NextTurn(kind);
      }
    }

    /** The row scan of lockPiece: the full rows, from the bottom row up. */
    method FindFullRows() returns (linesToClear: seq<int>)
      requires IsGrid(grid[..])
      ensures linesToClear == FullRows(grid[..])
    {
      linesToClear := [];
      var k := ROWS - 1;
      while k >= 0
        invariant -1 <= k < ROWS
        invariant linesToClear == FullRowsFrom(grid[..], k + 1)
      {
        if IsFull(grid[k]) {
          linesToClear := linesToClear + [k];
        }
        k := k - 1;
      }
    }

    /** The two for loops of lockPiece: every block of the piece at or below row 0 is written into the grid. */
    method StampPiece(p: Piece)
      requires IsGrid(grid[..]) && IsValidMove(grid[..], p, 0, 0, p.shape)
      modifies grid
      ensures grid[..] == Stamp(old(grid[..]), p)
    {
      ghost var g0 := grid[..];
      var r := 0;
      while r < |p.shape|
        modifies grid
        invariant 0 <= r <= |p.shape|
        invariant forall y :: 0 <= y < ROWS ==> |grid[y]| == COLS
        invariant forall y, x :: 0 <= y < ROWS && 0 <= x < COLS ==>
          grid[y][x] == if Covers(p, y, x) && y - p.y < r then p.color + 1 else g0[y][x]
      {
        var c := 0;
        while c < |p.shape[r]|
          modifies grid
          invariant 0 <= c <= |p.shape[r]|
          invariant forall y :: 0 <= y < ROWS ==> |grid[y]| == COLS
          invariant forall y, x :: 0 <= y < ROWS && 0 <= x < COLS ==>
            grid[y][x] ==
              if Covers(p, y, x) && (y - p.y < r || (y - p.y == r && x - p.x < c)) then p.color + 1
              else g0[y][x]
        {
          if p.shape[r][c] != 0 && p.y + r >= 0 {
            grid[p.y + r] := grid[p.y + r][p.x + c := p.color + 1];
          }
          c := c + 1;
        }
        r := r + 1;
      }
      StampedGrid(g0, p);
    }

    /** The grid after the stamping loops is Stamp of the grid before them. */
    lemma StampedGrid(g0: Grid, p: Piece)
      requires IsGrid(g0) && grid.Length == ROWS
      requires forall y :: 0 <= y < ROWS ==> |grid[y]| == COLS
      requires forall y, x :: 0 <= y < ROWS && 0 <= x < COLS ==>
        grid[y][x] == if Covers(p, y, x) && y - p.y < |p.shape| then p.color + 1 else g0[y][x]
      ensures grid[..] == Stamp(g0, p)
    {
      forall y | 0 <= y < ROWS
        ensures grid[..][y] == Stamp(g0, p)[y]
      {
        assert forall x :: 0 <= x < COLS ==> grid[y][x] == Stamp(g0, p)[y][x];
      }
    }

    /** One grid.splice(r, 1) followed by grid.unshift(an empty row). */
    method SpliceRow(r: int)
      requires 0 <= r < grid.Length
      modifies grid
      ensures grid[..] == RemoveRow(old(grid[..]), r)
    {
      var i := r;
      while i > 0
        invariant 0 <= i <= r
        invariant forall j :: 0 <= j <= i ==> grid[j] == old(grid[j])
        invariant forall j :: i < j <= r ==> grid[j] == old(grid[j - 1])
        invariant forall j :: r < j < grid.Length ==> grid[j] == old(grid[j])
      {
        grid[i] := grid[i - 1];
        i := i - 1;
      }
      grid[0] := EmptyRow();
      assert forall j :: 0 <= j < grid.Length ==> grid[..][j] == RemoveRow(old(grid[..]), r)[j];
    }

    /**
     * The timer callback of triggerLineClear: remove the pending rows one after another
     * (as written, so that later indices refer to the already shifted grid), score them,
     * clear the pending list and go to the next turn.
     */
    method FinishClear(kind: nat)
      requires Valid() && clearingLines != [] && kind < KINDS
      modifies this, grid
      ensures grid == old(grid) && Valid()
      ensures Snapshot() == Game.FinishClear(old(Snapshot()), kind)
    {
      ghost var s0 := Snapshot();
      var rows := clearingLines;
      RemoveRows(rows);
      ClearRowsKeepsGrid(s0.grid, rows);
      assert Snapshot() == s0.(grid := ClearRows(s0.grid, rows));
      UpdateScore(|rows|);
      clearingLines := [];
      NextTurn(kind);
      FinishClearEffect(old(Snapshot()), kind);
    }

    /** The forEach of the delayed part of triggerLineClear: splice out each listed row in turn. */
    method RemoveRows(rows: seq<int>)
      requires forall i :: 0 <= i < |rows| ==> 0 <= rows[i] < grid.Length
      modifies grid
      ensures grid[..] == ClearRows(old(grid[..]), rows)
    {
      ghost var g0 := grid[..];
      var i := 0;
      while i < |rows|
        invariant 0 <= i <= |rows|
        invariant ClearRows(grid[..], rows[i..]) == ClearRows(g0, rows)
      {
        assert rows[i..] == [rows[i]] + rows[i + 1..];
        SpliceRow(rows[i]);
        i := i + 1;
      }
      assert rows[i..] == [];
    }

    /**
     * getGhostPosition(): the lowest row the current piece can fall to, or 0 when there is
     * no current piece. It never changes the engine.
     */
    method GhostPosition() returns (ghostY: int)
      requires IsGrid(grid[..]) && (currentPiece.Some? ==> WellFormed(currentPiece.value))
      ensures currentPiece.None? ==> ghostY == 0
      ensures currentPiece.Some? ==> ghostY == GhostRow(grid[..], currentPiece.value)
      ensures currentPiece.Some? ==>
                var p := currentPiece.value;
                ghostY >= p.y && !IsValidMove(grid[..], p, 0, ghostY - p.y + 1, p.shape)
                && forall d :: 0 < d <= ghostY - p.y ==> IsValidMove(grid[..], p, 0, d, p.shape)
    {
      if currentPiece.None? {
        return 0;
      }
      var p := currentPiece.value;
      var g := grid[..];
      WellFormedShape(p);
      ghostY := p.y;
      while IsValidMove(g, p, 0, ghostY - p.y + 1, p.shape)
        invariant Landing(g, p, ghostY) == Landing(g, p, p.y)
        decreases ROWS - ghostY
      {
        ValidMoveAboveFloor(g, p, 0, ghostY - p.y + 1, p.shape);
        ghostY := ghostY + 1;
      }
      LandingStops(g, p, p.y);
      LandingMaximal(g, p, p.y);
    }

    /** hardDrop(): drop to the ghost row, 2 points per row fallen, then lock. */
    method HardDrop(kind: nat)
      requires Valid() && kind < KINDS
      modifies this, grid
      ensures grid == old(grid) && Valid()
      ensures Snapshot() == Game.HardDrop(old(Snapshot()), kind)
    {
      if currentPiece.None? || !gameRunning || isPaused || clearingLines != [] {
        return;
      }
      ghost var s0 := Snapshot();
      var ghostY := GhostPosition();
      var p := currentPiece.value;
      HardDropLocks(s0, kind, ghostY);
      var dist := ghostY - p.y;
      currentPiece := Some(p.(y := ghostY));
      score := score + dist * 2;
      ghost var s1 := DropTo(s0, ghostY);
      assert Snapshot() == s1;
      LockPiece(kind);
      assert Snapshot() == Lock(s1, kind);
      HardDropValid(s0, kind);
    }

    /** The gravity step of update(time). */
    method Update(time: int, kind: nat)
      requires Valid() && kind < KINDS
      modifies this, grid
      ensures grid == old(grid) && Valid()
      ensures Snapshot() == Game.Update(old(Snapshot()), time, kind)
    {
      if !gameRunning || isPaused {
        return;
      }
      ghost var s0 := Snapshot();
      var deltaTime := time - lastTime;
      lastTime := time;
      if clearingLines == [] {
        dropCounter := dropCounter + deltaTime;
        assert Snapshot() == Tick(s0, time);
        if dropCounter as real > dropInterval {
          ghost var s1 := Snapshot();
          var p := currentPiece.value;
          if IsValidMove(grid[..], p, 0, 1, p.shape) {
            currentPiece := Some(p.(y := p.y + 1));
            assert Snapshot() == Moved(s1, 0, 1);
          } else {
            LockPiece(kind);
          }
          dropCounter := 0;
          assert Snapshot() == Gravity(s1, kind);
        }
      } else {
        assert Snapshot() == Tick(s0, time);
      }
      UpdateValid(s0, time, kind);
    }

    /** The keydown handler: one shared guard, then the action of the key. */
    method KeyDown(key: Key, kind: nat)
      requires Valid() && kind < KINDS
      modifies this, grid
      ensures grid == old(grid) && Valid()
      ensures Snapshot() == Game.KeyDown(old(Snapshot()), key, kind)
    {
      if !gameRunning || isPaused || currentPiece.None? || clearingLines != [] {
        return;
      }
      ghost var s0 := Snapshot();
      var p := currentPiece.value;
      match key
      case ArrowLeft =>
        if IsValidMove(grid[..], p, -1, 0, p.shape) {
          currentPiece := Some(p.(x := p.x - 1));
        }
        assert Snapshot() == Shift(s0, -1);
        ShiftValid(s0, -1);
      case ArrowRight =>
        if IsValidMove(grid[..], p, 1, 0, p.shape) {
          currentPiece := Some(p.(x := p.x + 1));
        }
        assert Snapshot() == Shift(s0, 1);
        ShiftValid(s0, 1);
      case ArrowDown =>
        ghost var s1 := s0;
        if IsValidMove(grid[..], p, 0, 1, p.shape) {
          currentPiece := Some(p.(y := p.y + 1));
          s1 := Moved(s0, 0, 1);
        }
        assert Snapshot() == s1;
        score := score + 1;
        assert Snapshot() == AddPoints(s1, 1);
        UpdateScore(0);
        assert Snapshot() == SoftDrop(s0);
        SoftDropValid(s0);
      case Space =>
        SpaceIsHardDrop(s0, kind);
        HardDrop(kind);
      case ArrowUp =>
        var nRot := (p.rotation + 1) % |Table[p.kind]|;
        var nShp := Table[p.kind][nRot];
        if IsValidMove(grid[..], p, 0, 0, nShp) {
          currentPiece := Some(p.(rotation := nRot, shape := nShp));
        }
        assert Snapshot() == Rotate(s0);
        RotateValid(s0);
      case OtherKey =>
    }

    /**
     * startGame(): a fresh grid and two new pieces, counters reset, the clock read, then
     * updateScore(0) and update() with its default time 0. That update cannot drop the piece
     * (StartGameIsUpdate), so only its clock and counter assignments are written out.
     */
    method StartGame(now: int, first: nat, second: nat)
      requires Valid() && now >= 0 && first < KINDS && second < KINDS
      modifies this
      ensures fresh(grid) && Valid()
      ensures Snapshot() == Game.StartGame(old(Snapshot()), now, first, second)
    {
      ghost var s0 := Snapshot();
      Reset(now, first, second);
      UpdateScore(0);
      assert Snapshot() == Restart(s0, now, first, second);
      ghost var s1 := Snapshot();
      var deltaTime := 0 - lastTime;
      lastTime := 0;
      if clearingLines == [] {
        dropCounter := dropCounter + deltaTime;
      }
      assert Snapshot() == Tick(s1, 0);
      StartGameEffect(s0, now, first, second);
    }

    /** The assignments at the start of startGame(). */
    method Reset(now: int, first: nat, second: nat)
      requires first < KINDS && second < KINDS
      modifies this
      ensures fresh(grid)
      ensures Snapshot() == Game.Reset(old(Snapshot()), now, first, second)
    {
      gameRunning := true;
      isPaused := false;
      grid := new seq<int>[ROWS](_ => EmptyRow());
      currentPiece := Some(Spawn(first));
      nextPiece := Some(Spawn(second));
      score := 0;
      level := 1;
      lines := 0;
      dropInterval := START_INTERVAL;
      comboCount := 0;
      lastTime := now;
      assert grid[..] == CreateGrid();
    }

    /** backToMenu(): stop the game and clear the pause flag. */
    method BackToMenu()
      requires Valid()
      modifies this
      ensures grid == old(grid) && Valid()
      ensures Snapshot() == Game.BackToMenu(old(Snapshot()))
    {
      gameRunning := false;
      isPaused := false;
      BackToMenuEffect(old(Snapshot()));
    }

    /** togglePause(): flip the flag; on resume restart the clock and run update(). */
    method TogglePause(now: int, kind: nat)
      requires Valid() && kind < KINDS
      modifies this, grid
      ensures grid == old(grid) && Valid()
      ensures Snapshot() == Game.TogglePause(old(Snapshot()), now, kind)
    {
      if !gameRunning {
        return;
      }
      isPaused := !isPaused;
      if !isPaused {
        lastTime := now;
        assert Snapshot() == Resume(old(Snapshot()), now);
        Update(0, kind);
      }
      TogglePauseEffect(old(Snapshot()), now, kind);
    }
  }
}
