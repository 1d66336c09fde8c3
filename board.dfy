// The playing field of script.js: the 20 x 10 grid (createGrid, script.js:249), the
// collision test isValidMove (script.js:254-260), the landing row of getGhostPosition
// (script.js:119-124), writing a locked piece (script.js:171-173), the full-row scan
// (script.js:176) and the row removal of the line-clear continuation (script.js:205).
// Everything here is a value; the in-place versions are the methods of GameEngine.Engine.

module Board {
  import opened Pieces

  const ROWS: int := 20
  const COLS: int := 10

  /** Rows top to bottom, cells left to right; 0 is empty, otherwise colour index + 1. */
  type Grid = seq<seq<int>>

  predicate IsGrid(g: Grid)
  {
    |g| == ROWS && forall y :: 0 <= y < |g| ==> |g[y]| == COLS
  }

  /** Every cell is empty or holds the colour of one of the seven kinds. */
  predicate CellsInRange(g: Grid)
  {
    forall y, x :: 0 <= y < |g| && 0 <= x < |g[y]| ==> 0 <= g[y][x] <= KINDS
  }

  /** `Array(COLS).fill(0)` */
  function EmptyRow(): (row: seq<int>)
    ensures |row| == COLS && forall x :: 0 <= x < COLS ==> row[x] == 0
  {
    seq(COLS, _ => 0)
  }

  /** createGrid: ROWS rows of COLS empty cells. */
  function CreateGrid(): (g: Grid)
    ensures IsGrid(g) && forall y :: 0 <= y < ROWS ==> g[y] == EmptyRow()
  {
    seq(ROWS, _ => EmptyRow())
  }

  // ---------------------------------------------------------------- collision

  /**
   * isValidMove(p, dx, dy, shp): every block of shp, placed with its top-left corner at
   * (p.x + dx, p.y + dy), lies in a column of the grid, above the floor, and either above
   * the top edge or on an empty cell.
   */
  predicate IsValidMove(g: Grid, p: Piece, dx: int, dy: int, shp: Shape)
    requires IsGrid(g)
  {
    forall r, c :: 0 <= r < |shp| && 0 <= c < |shp[r]| && shp[r][c] != 0 ==>
      Free(g, p.x + c + dx, p.y + r + dy)
  }

  /** A cell a block may occupy: inside the columns, above the floor, and above the top or empty. */
  predicate Free(g: Grid, x: int, y: int)
    requires IsGrid(g)
  {
    0 <= x < COLS && y < ROWS && (y < 0 || g[y][x] == 0)
  }

  /** The absolute cells the blocks of shp cover when its corner is at (x, y). */
  ghost function Blocks(shp: Shape, x: int, y: int): set<(int, int)>
  {
    set r, c | 0 <= r < |shp| && 0 <= c < |shp[r]| && shp[r][c] != 0 :: (x + c, y + r)
  }

  /** A move is valid exactly when every cell the moved shape covers is free. */
  lemma ValidMoveIff(g: Grid, p: Piece, dx: int, dy: int, shp: Shape)
    requires IsGrid(g)
    ensures IsValidMove(g, p, dx, dy, shp) <==>
              forall b :: b in Blocks(shp, p.x + dx, p.y + dy) ==> Free(g, b.0, b.1)
  {
    var bs := Blocks(shp, p.x + dx, p.y + dy);
    if IsValidMove(g, p, dx, dy, shp) {
      forall b | b in bs ensures Free(g, b.0, b.1) {
        var r, c :| 0 <= r < |shp| && 0 <= c < |shp[r]| && shp[r][c] != 0
                    && b == (p.x + dx + c, p.y + dy + r);
      }
    }
    if forall b :: b in bs ==> Free(g, b.0, b.1) {
      forall r, c | 0 <= r < |shp| && 0 <= c < |shp[r]| && shp[r][c] != 0
        ensures Free(g, p.x + c + dx, p.y + r + dy)
      {
        assert (p.x + dx + c, p.y + dy + r) in bs;
      }
    }
  }

  /** A valid placement of a table shape is above the floor: its top row is a grid row. */
  lemma ValidMoveAboveFloor(g: Grid, p: Piece, dx: int, dy: int, shp: Shape)
    requires IsGrid(g) && ShapeOk(shp) && IsValidMove(g, p, dx, dy, shp)
    ensures p.y + dy < ROWS
  {
    var c :| 0 <= c < |shp[0]| && Occupied(shp, 0, c);
  }

  // ---------------------------------------------------------------- ghost row

  /**
   * The row the loop of getGhostPosition stops at when it starts from `row`: it moves
   * down while the next row down is still a valid position.
   */
  function Landing(g: Grid, p: Piece, row: int): int
    requires IsGrid(g) && ShapeOk(p.shape)
    decreases ROWS - row
  {
    if IsValidMove(g, p, 0, row - p.y + 1, p.shape) then
      ValidMoveAboveFloor(g, p, 0, row - p.y + 1, p.shape);
      Landing(g, p, row + 1)
    else row
  }

  /** The landing row is at or below the start row, and the piece cannot go one row lower. */
  lemma {:induction false} LandingStops(g: Grid, p: Piece, row: int)
    requires IsGrid(g) && ShapeOk(p.shape)
    ensures Landing(g, p, row) >= row
    ensures !IsValidMove(g, p, 0, Landing(g, p, row) - p.y + 1, p.shape)
    decreases ROWS - row
  {
    if IsValidMove(g, p, 0, row - p.y + 1, p.shape) {
      ValidMoveAboveFloor(g, p, 0, row - p.y + 1, p.shape);
      LandingStops(g, p, row + 1);
      assert Landing(g, p, row) == Landing(g, p, row + 1);
    } else {
      assert Landing(g, p, row) == row;
    }
  }

  /**
   * Every row from just below the start row down to the landing row is a valid position,
   * so with LandingStops the landing row is the deepest one reachable.
   */
  lemma {:induction false} LandingMaximal(g: Grid, p: Piece, row: int)
    requires IsGrid(g) && ShapeOk(p.shape)
    ensures forall d :: row - p.y < d <= Landing(g, p, row) - p.y ==> IsValidMove(g, p, 0, d, p.shape)
    decreases ROWS - row
  {
    if IsValidMove(g, p, 0, row - p.y + 1, p.shape) {
      ValidMoveAboveFloor(g, p, 0, row - p.y + 1, p.shape);
      LandingMaximal(g, p, row + 1);
      var l := Landing(g, p, row + 1);
      assert Landing(g, p, row) == l;
      forall d | row - p.y < d <= l - p.y
        ensures IsValidMove(g, p, 0, d, p.shape)
      {
        if d != row - p.y + 1 {
          assert row + 1 - p.y < d;
        }
      }
    } else {
      assert Landing(g, p, row) == row;
    }
  }

  /** getGhostPosition() for a current piece: the landing row counted from the piece's own row. */
  function GhostRow(g: Grid, p: Piece): int
    requires IsGrid(g) && WellFormed(p)
  {
    WellFormedShape(p);
    Landing(g, p, p.y)
  }

  /** A piece in a valid position is still in a valid position once moved to its landing row. */
  lemma LandingFits(g: Grid, p: Piece)
    requires IsGrid(g) && ShapeOk(p.shape) && IsValidMove(g, p, 0, 0, p.shape)
    ensures IsValidMove(g, p.(y := Landing(g, p, p.y)), 0, 0, p.shape)
  {
    LandingStops(g, p, p.y);
    var d := Landing(g, p, p.y) - p.y;
    if d > 0 {
      LandingMaximal(g, p, p.y);
      assert IsValidMove(g, p, 0, d, p.shape);
    }
    MovedPlacement(g, p, d);
  }

  /** A piece moved down by d rows is valid where it stands iff the move by d was valid. */
  lemma MovedPlacement(g: Grid, p: Piece, d: int)
    requires IsGrid(g) && IsValidMove(g, p, 0, d, p.shape)
    ensures IsValidMove(g, p.(y := p.y + d), 0, 0, p.shape)
  {
    var q := p.(y := p.y + d);
    forall r, c | 0 <= r < |p.shape| && 0 <= c < |p.shape[r]| && p.shape[r][c] != 0
      ensures Free(g, q.x + c + 0, q.y + r + 0)
    {
      assert Free(g, p.x + c + 0, p.y + r + d);
    }
  }

  // ---------------------------------------------------------------- locking

  /** The cell (y, x) is under a block of the piece. */
  predicate Covers(p: Piece, y: int, x: int)
  {
    Occupied(p.shape, y - p.y, x - p.x)
  }

  /** The grid after the piece's blocks are written into it as colour + 1. */
  function Stamp(g: Grid, p: Piece): (h: Grid)
    requires IsGrid(g)
    ensures IsGrid(h)
  {
    seq(ROWS, y requires 0 <= y < ROWS =>
      seq(COLS, x requires 0 <= x < COLS => if Covers(p, y, x) then p.color + 1 else g[y][x]))
  }

  /**
   * Locking a validly placed piece: each block whose row is inside the grid lands on a
   * cell that was empty and now holds colour + 1 (1..7); every other cell is unchanged,
   * so all cells stay within 0..7.
   */
  lemma StampCells(g: Grid, p: Piece)
    requires IsGrid(g) && CellsInRange(g) && WellFormed(p) && IsValidMove(g, p, 0, 0, p.shape)
    ensures CellsInRange(Stamp(g, p))
    ensures forall r, c :: Occupied(p.shape, r, c) && p.y + r >= 0 ==>
              0 <= p.x + c < COLS && p.y + r < ROWS && g[p.y + r][p.x + c] == 0
              && Stamp(g, p)[p.y + r][p.x + c] == p.color + 1
    ensures forall y, x :: 0 <= y < ROWS && 0 <= x < COLS && !Covers(p, y, x) ==>
              Stamp(g, p)[y][x] == g[y][x]
  {
    var h := Stamp(g, p);
    forall r, c | Occupied(p.shape, r, c) && p.y + r >= 0
      ensures 0 <= p.x + c < COLS && p.y + r < ROWS && g[p.y + r][p.x + c] == 0
      ensures h[p.y + r][p.x + c] == p.color + 1
    {
      assert Covers(p, p.y + r, p.x + c);
    }
  }

  // ---------------------------------------------------------------- full rows

  /** `row.every(cell => cell !== 0)` */
  predicate IsFull(row: seq<int>)
  {
    forall c :: 0 <= c < |row| ==> row[c] != 0
  }

  /** A list of grid row indices in strictly decreasing order. */
  predicate DescendingRows(rs: seq<int>)
  {
    (forall i :: 0 <= i < |rs| ==> 0 <= rs[i] < ROWS)
    && (forall i, j :: 0 <= i < j < |rs| ==> rs[i] > rs[j])
  }

  /**
   * The indices of the full rows at or below `lo`, collected from the bottom up as the
   * loop of lockPiece does: strictly decreasing, and containing a row iff it is full.
   */
  function FullRowsFrom(g: Grid, lo: nat): (rs: seq<int>)
    requires lo <= |g|
    ensures forall i :: 0 <= i < |rs| ==> lo <= rs[i] < |g|
    ensures forall i, j :: 0 <= i < j < |rs| ==> rs[i] > rs[j]
    ensures forall y :: lo <= y < |g| ==> (y in rs <==> IsFull(g[y]))
    decreases |g| - lo
  {
    if lo == |g| then [] else FullRowsFrom(g, lo + 1) + (if IsFull(g[lo]) then [lo] else [])
  }

  function FullRows(g: Grid): seq<int>
  {
    FullRowsFrom(g, 0)
  }

  // ---------------------------------------------------------------- row removal

  /** `grid.splice(r, 1); grid.unshift(Array(COLS).fill(0))` */
  function RemoveRow(g: Grid, r: int): Grid
    requires 0 <= r < |g|
  {
    [EmptyRow()] + (g[..r] + g[r + 1..])
  }

  /**
   * Removing row r keeps the height; the rows below r stay where they are, each row
   * above r moves down by one, and the top row is a new empty one.
   */
  lemma RemoveRowMovesRowsDown(g: Grid, r: int)
    requires 0 <= r < |g|
    ensures |RemoveRow(g, r)| == |g| && RemoveRow(g, r)[0] == EmptyRow()
    ensures forall i :: 0 < i <= r ==> RemoveRow(g, r)[i] == g[i - 1]
    ensures forall i :: r < i < |g| ==> RemoveRow(g, r)[i] == g[i]
    ensures IsGrid(g) ==> IsGrid(RemoveRow(g, r))
    ensures CellsInRange(g) ==> CellsInRange(RemoveRow(g, r))
  {
    var h := RemoveRow(g, r);
    assert forall i :: 0 < i < |h| ==> h[i] == if i <= r then g[i - 1] else g[i];
  }

  /**
   * The continuation of triggerLineClear: `linesToClear.forEach(r => ...)`, each index
   * applied to the grid the previous removals produced.
   */
  function ClearRows(g: Grid, rs: seq<int>): (h: Grid)
    requires forall i :: 0 <= i < |rs| ==> 0 <= rs[i] < |g|
    ensures |h| == |g|
    decreases |rs|
  {
    if rs == [] then g else ClearRows(RemoveRow(g, rs[0]), rs[1..])
  }

  /** Row removal keeps a grid of ROWS rows of COLS cells, each within 0..7. */
  lemma {:induction false} ClearRowsKeepsGrid(g: Grid, rs: seq<int>)
    requires IsGrid(g) && CellsInRange(g)
    requires forall i :: 0 <= i < |rs| ==> 0 <= rs[i] < |g|
    ensures IsGrid(ClearRows(g, rs)) && CellsInRange(ClearRows(g, rs))
    decreases |rs|
  {
    if rs != [] {
      RemoveRowMovesRowsDown(g, rs[0]);
      ClearRowsKeepsGrid(RemoveRow(g, rs[0]), rs[1..]);
    }
  }

  /**
   * With rows 19 and 18 full, the scan yields [19, 18]; removing 19 moves the old row
   * 18 to index 19 and the old row 17 to index 18, so the second removal deletes the
   * old row 17 and the full row 18 stays at the bottom.
   */
  lemma TwoFullRowsClearWrongRow(g: Grid)
    requires IsGrid(g) && IsFull(g[18]) && IsFull(g[19])
    ensures ClearRows(g, [19, 18]) == [EmptyRow(), EmptyRow()] + g[..17] + [g[18]]
    ensures IsFull(ClearRows(g, [19, 18])[ROWS - 1])
  {
    var g1 := RemoveRow(g, 19);
    var g2 := RemoveRow(g1, 18);
    assert ClearRows(g, [19, 18]) == ClearRows(g1, [18]);
    assert [19, 18][1..][1..] == [];
    assert ClearRows(g1, [18]) == g2;
    assert g2 == [EmptyRow(), EmptyRow()] + g[..17] + [g[18]];
  }

  /** The rows of g[..hi] whose index is not listed in rs, in their original order. */
  function Kept(g: Grid, rs: seq<int>, hi: nat): (k: Grid)
    requires hi <= |g|
    ensures |k| <= hi
  {
    if hi == 0 then [] else Kept(g, rs, hi - 1) + (if hi - 1 in rs then [] else [g[hi - 1]])
  }

  /** n empty rows. */
  function EmptyRows(n: nat): (rs: Grid)
    ensures |rs| == n && forall i :: 0 <= i < n ==> rs[i] == EmptyRow()
  {
    if n == 0 then [] else [EmptyRow()] + EmptyRows(n - 1)
  }

  /**
   * Row removal as intended: the listed rows disappear, the
   * other rows keep their order, and as many empty rows as were removed enter on top.
   */
  function ClearRowsIntended(g: Grid, rs: seq<int>): (h: Grid)
    ensures |h| == |g|
  {
    var k := Kept(g, rs, |g|);
    EmptyRows(|g| - |k|) + k
  }

  lemma {:induction false} KeptRowsNotFull(g: Grid, rs: seq<int>, hi: nat)
    requires IsGrid(g) && hi <= |g|
    requires forall y :: 0 <= y < |g| && y !in rs ==> !IsFull(g[y])
    ensures forall i :: 0 <= i < |Kept(g, rs, hi)| ==>
              |Kept(g, rs, hi)[i]| == COLS && !IsFull(Kept(g, rs, hi)[i])
  {
    if hi > 0 {
      KeptRowsNotFull(g, rs, hi - 1);
    }
  }

  /** Removing every full row as intended leaves a grid with no full row. */
  lemma IntendedClearsEveryFullRow(g: Grid)
    requires IsGrid(g)
    ensures IsGrid(ClearRowsIntended(g, FullRows(g)))
    ensures forall y :: 0 <= y < ROWS ==> !IsFull(ClearRowsIntended(g, FullRows(g))[y])
  {
    var rs := FullRows(g);
    KeptRowsNotFull(g, rs, |g|);
    var k := Kept(g, rs, |g|);
    var h := ClearRowsIntended(g, rs);
    assert !IsFull(EmptyRow()) by { assert EmptyRow()[0] == 0; }
    forall y | 0 <= y < ROWS ensures |h[y]| == COLS && !IsFull(h[y]) {
      if y >= |g| - |k| {
        assert h[y] == k[y - (|g| - |k|)];
      }
    }
  }

  lemma {:induction false} KeptAllButOne(g: Grid, r: int, hi: nat)
    requires 0 <= r < |g| && hi <= |g|
    ensures Kept(g, [r], hi) == if hi <= r then g[..hi] else g[..r] + g[r + 1..hi]
  {
    if hi > 0 {
      KeptAllButOne(g, r, hi - 1);
    }
  }

  /** For a single full row, the program's removal is the intended one. */
  lemma SingleRowClearAgrees(g: Grid, r: int)
    requires 0 <= r < |g|
    ensures ClearRows(g, [r]) == ClearRowsIntended(g, [r])
  {
    var k := g[..r] + g[r + 1..];
    KeptAllButOne(g, r, |g|);
    assert g[r + 1..|g|] == g[r + 1..];
    assert Kept(g, [r], |g|) == k;
    assert EmptyRows(1) == [EmptyRow()];
    assert [r][1..] == [];
    assert ClearRows(g, [r]) == ClearRows(RemoveRow(g, r), []);
  }

  // ---------------------------------------------------------------- start of game

  /** A new grid is empty and has no full row. */
  lemma CreateGridFacts()
    ensures IsGrid(CreateGrid()) && CellsInRange(CreateGrid())
    ensures forall y, x :: 0 <= y < ROWS && 0 <= x < COLS ==> CreateGrid()[y][x] == 0
    ensures FullRows(CreateGrid()) == []
  {
    var g := CreateGrid();
    assert !IsFull(EmptyRow()) by {
      assert EmptyRow()[0] == 0;
    }
    NoFullRowsListed(g);
  }

  lemma NoFullRowsListed(g: Grid)
    requires forall y :: 0 <= y < |g| ==> !IsFull(g[y])
    ensures FullRows(g) == []
  {
    var rs := FullRows(g);
    if rs != [] {
      assert rs[0] in rs;
      assert false;
    }
  }

  /** Every kind spawns at a valid position of an empty grid (columns 3..6, rows 0..3). */
  lemma SpawnFitsEmptyGrid(kind: nat)
    requires kind < KINDS
    ensures IsValidMove(CreateGrid(), Spawn(kind), 0, 0, Spawn(kind).shape)
  {
    var p := Spawn(kind);
    var g := CreateGrid();
    forall r, c | 0 <= r < |p.shape| && 0 <= c < |p.shape[r]| && p.shape[r][c] != 0
      ensures Free(g, p.x + c, p.y + r)
    {
    }
  }
}
