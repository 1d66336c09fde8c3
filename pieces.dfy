// The piece catalogue of the game (script.js:77-85) and the active-piece record
// created by createPiece (script.js:250-253).

module Pieces {

  /** A rotation state: rows of cells, 1 where the piece has a block, 0 elsewhere. */
  type Shape = seq<seq<int>>

  /** A piece slot that may be empty, like `currentPiece = null` before the first game. */
  datatype Option<T> = None | Some(value: T)

  /** The seven pieces (I, O, T, S, Z, J, L), each with its rotation states in cyclic order. */
  const Table: seq<seq<Shape>> := [
    [ [[1,1,1,1]], [[1],[1],[1],[1]] ],
    [ [[1,1],[1,1]] ],
    [ [[0,1,0],[1,1,1]], [[1,0],[1,1],[1,0]], [[1,1,1],[0,1,0]], [[0,1],[1,1],[0,1]] ],
    [ [[0,1,1],[1,1,0]], [[1,0],[1,1],[0,1]] ],
    [ [[1,1,0],[0,1,1]], [[0,1],[1,1],[1,0]] ],
    [ [[1,0,0],[1,1,1]], [[1,1],[1,0],[1,0]], [[1,1,1],[0,0,1]], [[0,1],[0,1],[1,1]] ],
    [ [[0,0,1],[1,1,1]], [[1,0],[1,0],[1,1]], [[1,1,1],[1,0,0]], [[1,1],[0,1],[0,1]] ]
  ]

  /** Number of piece kinds, `pieces.length`. */
  const KINDS: nat := 7

  /** Spawn column and row of every new piece. */
  const SPAWN_X: int := 3
  const SPAWN_Y: int := 0

  /**
   * The falling piece: `{ shape, color, x, y, rotation, type }`. The source field
   * `type` is called `kind` here because `type` is a Dafny keyword.
   */
  datatype Piece = Piece(shape: Shape, color: nat, x: int, y: int, rotation: nat, kind: nat)

  /** A cell of the shape holds a block. */
  predicate Occupied(s: Shape, r: int, c: int)
  {
    0 <= r < |s| && 0 <= c < |s[r]| && s[r][c] != 0
  }

  /**
   * What the table guarantees of each of its shapes: at most 4 by 4 cells, every cell
   * 0 or 1, and a block in the top row (so a shape is never empty).
   */
  predicate ShapeOk(s: Shape)
  {
    1 <= |s| <= 4
    && (forall r :: 0 <= r < |s| ==> 1 <= |s[r]| <= 4)
    && (forall r, c :: 0 <= r < |s| && 0 <= c < |s[r]| ==> 0 <= s[r][c] <= 1)
    && (exists c :: 0 <= c < |s[0]| && Occupied(s, 0, c))
  }

  /** A piece as the program builds it: a table entry, coloured by its kind. */
  predicate WellFormed(p: Piece)
  {
    p.kind < |Table| && p.rotation < |Table[p.kind]|
    && p.shape == Table[p.kind][p.rotation] && p.color == p.kind
  }

  /** The table has 7 kinds with 2, 1, 4, 2, 2, 4 and 4 rotation states, all well shaped. */
  lemma TableShapes()
    ensures |Table| == KINDS
    ensures |Table[0]| == 2 && |Table[1]| == 1 && |Table[2]| == 4 && |Table[3]| == 2
    ensures |Table[4]| == 2 && |Table[5]| == 4 && |Table[6]| == 4
    ensures forall k, i :: 0 <= k < |Table| && 0 <= i < |Table[k]| ==> ShapeOk(Table[k][i])
  {
    forall k, i | 0 <= k < |Table| && 0 <= i < |Table[k]|
      ensures ShapeOk(Table[k][i])
    {
      var s := Table[k][i];
      if s[0][0] != 0 {
        assert Occupied(s, 0, 0);
      } else if s[0][1] != 0 {
        assert Occupied(s, 0, 1);
      } else {
        assert Occupied(s, 0, 2);
      }
    }
  }

  /** The shape of a well-formed piece is one the table guarantees. */
  lemma WellFormedShape(p: Piece)
    requires WellFormed(p)
    ensures ShapeOk(p.shape)
  {
    TableShapes();
  }

  /** createPiece with the random kind passed in: rotation 0 of that kind, at (3, 0). */
  function Spawn(kind: nat): (p: Piece)
    requires kind < KINDS
    ensures WellFormed(p) && p.kind == kind && p.rotation == 0
    ensures p.x == SPAWN_X && p.y == SPAWN_Y
  {
    Piece(Table[kind][0], kind, SPAWN_X, SPAWN_Y, 0, kind)
  }

  /**
   * The candidate of the rotate key: next rotation index modulo the number of states of
   * the kind, with the matching shape; position, colour and kind unchanged.
   */
  function Rotated(p: Piece): (q: Piece)
    requires WellFormed(p)
    ensures WellFormed(q)
    ensures q.rotation == (p.rotation + 1) % |Table[p.kind]|
    ensures q.x == p.x && q.y == p.y && q.kind == p.kind && q.color == p.color
  {
    var n := (p.rotation + 1) % |Table[p.kind]|;
    p.(rotation := n, shape := Table[p.kind][n])
  }

  /** The piece after k successful rotations. */
  function RotatedTimes(p: Piece, k: nat): (q: Piece)
    requires WellFormed(p)
    ensures WellFormed(q) && q.kind == p.kind && q.x == p.x && q.y == p.y
  {
    if k == 0 then p else Rotated(RotatedTimes(p, k - 1))
  }

  /** After k rotations the rotation index has advanced by k modulo the state count. */
  lemma RotatedTimesIndex(p: Piece, k: nat)
    requires WellFormed(p)
    ensures RotatedTimes(p, k).rotation == (p.rotation + k) % |Table[p.kind]|
  {
    RotatedTimesAdvance(p, k);
    AdvanceIndex(p.rotation, |Table[p.kind]|, k);
  }

  /** A rotation index moved on k times by the rotate key's `(r + 1) % n` step. */
  function Advance(r: nat, n: nat, k: nat): nat
    requires n > 0
  {
    if k == 0 then r else (Advance(r, n, k - 1) + 1) % n
  }

  lemma {:induction false} RotatedTimesAdvance(p: Piece, k: nat)
    requires WellFormed(p)
    ensures RotatedTimes(p, k).rotation == Advance(p.rotation, |Table[p.kind]|, k)
  {
    if k > 0 {
      RotatedTimesAdvance(p, k - 1);
    }
  }

  lemma {:induction false} AdvanceIndex(r: nat, n: nat, k: nat)
    requires r < n
    ensures Advance(r, n, k) == (r + k) % n
  {
    if k > 0 {
      var a: nat := r + k - 1;
      AdvanceIndex(r, n, k - 1);
      var prev := Advance(r, n, k - 1);
      assert prev == a % n;
      assert Advance(r, n, k) == (prev + 1) % n;
      ModStep(a, n);
      assert a + 1 == r + k;
    } else {
      ModUnique(r, n, 0, r);
    }
  }

  /** Advancing a valid index as many times as there are states comes back to it. */
  lemma AdvanceCycle(r: nat, n: nat)
    requires r < n
    ensures Advance(r, n, n) == r
  {
    AdvanceIndex(r, n, n);
    ModUnique(r + n, n, 1, r);
  }

  /** Taking the remainder before adding 1 does not change the remainder after. */
  lemma ModStep(a: nat, n: nat)
    requires n > 0
    ensures (a % n + 1) % n == (a + 1) % n
  {
    var q, m := a / n, a % n;
    assert a == q * n + m;
    if m + 1 < n {
      ModUnique(m + 1, n, 0, m + 1);
      ModUnique(a + 1, n, q, m + 1);
    } else {
      ModUnique(m + 1, n, 1, 0);
      ModUnique(a + 1, n, q + 1, 0);
    }
  }

  /** The remainder is the one m in 0..n-1 with x == q * n + m. */
  lemma ModUnique(x: int, n: int, q: int, m: int)
    requires n > 0 && 0 <= m < n && x == q * n + m
    ensures x % n == m
  {
    var q', m' := x / n, x % n;
    assert (q - q') * n == m' - m;
    if q - q' >= 1 {
      MulAtLeast(q - q', n);
    } else if q' - q >= 1 {
      MulAtLeast(q' - q, n);
    }
  }

  lemma {:induction false} MulAtLeast(d: int, n: int)
    requires d >= 1 && n > 0
    ensures d * n >= n
    decreases d
  {
    if d > 1 {
      MulAtLeast(d - 1, n);
      assert d * n == (d - 1) * n + n;
    }
  }

  /** Rotating a piece as many times as its kind has states gives back the same piece. */
  lemma RotationCycle(p: Piece)
    requires WellFormed(p)
    ensures RotatedTimes(p, |Table[p.kind]|) == p
  {
    CycleIndex(p);
    SamePiece(p, RotatedTimes(p, |Table[p.kind]|));
  }

  lemma CycleIndex(p: Piece)
    requires WellFormed(p)
    ensures RotatedTimes(p, |Table[p.kind]|).rotation == p.rotation
  {
    RotatedTimesAdvance(p, |Table[p.kind]|);
    AdvanceCycle(p.rotation, |Table[p.kind]|);
  }

  /** Two table pieces of the same kind, rotation and position are the same piece. */
  lemma SamePiece(p: Piece, q: Piece)
    requires WellFormed(p) && WellFormed(q)
    requires q.kind == p.kind && q.rotation == p.rotation && q.x == p.x && q.y == p.y
    ensures q == p
  {
  }
}
