/**
 The piece catalogue of the game: the seven tetromino kinds, their occupancy
 matrices and colour tags, and the quarter-turn transform used by rotate.
 */
module Tetromino {

  /** The kinds, in the order of the source's enum (rand() % 7 is cast by it). */
  datatype Kind = I | O | T | S | Z | J | L

  /** A row-major occupancy matrix: 1 marks an occupied cell, 0 an empty one. */
  type Shape = seq<seq<int>>

  datatype Piece = Piece(kind: Kind, shape: Shape, color: int)

  /** Position of a kind in the enum. */
  function IndexOf(k: Kind): (n: int)
    ensures 0 <= n < 7
  {
    match k
    case I => 0
    case O => 1
    case T => 2
    case S => 3
    case Z => 4
    case J => 5
    case L => 6
  }

  /** The enum cast `static_cast<TetrominoType>(n)` for 0 <= n < 7. */
  function KindOfIndex(n: int): (k: Kind)
    requires 0 <= n < 7
    ensures IndexOf(k) == n
  {
    [I, O, T, S, Z, J, L][n]
  }

  lemma KindOfIndexOf(k: Kind)
    ensures KindOfIndex(IndexOf(k)) == k
  {
  }

  /** Non-empty, every row as long as the first, and that length non-zero. */
  predicate Rectangular(s: Shape) {
    |s| > 0 && |s[0]| > 0 && forall i :: 0 <= i < |s| ==> |s[i]| == |s[0]|
  }

  /** Cell (i, j) of s exists and is occupied. */
  predicate Occupied(s: Shape, i: int, j: int) {
    0 <= i < |s| && 0 <= j < |s[i]| && s[i][j] != 0
  }

  /**
   What every shape in play satisfies: a rectangle of at most 4 by 4 cells
   holding only 0 and 1, with at least one occupied cell.
   */
  ghost predicate WellFormed(s: Shape) {
    && Rectangular(s)
    && |s| <= 4 && |s[0]| <= 4
    && (forall i, j :: 0 <= i < |s| && 0 <= j < |s[i]| ==> s[i][j] == 0 || s[i][j] == 1)
    && exists i, j :: Occupied(s, i, j)
  }

  /** Tetromino(kind): initializeShape's table of matrices and colour tags. */
  function Catalogue(k: Kind): (p: Piece)
    ensures p.kind == k
    ensures p.color == IndexOf(k) + 1
    ensures WellFormed(p.shape) && |p.shape| <= 2
  {
    match k
    case I => (assert Occupied([[1, 1, 1, 1]], 0, 0);
      Piece(I, [[1, 1, 1, 1]], 1))
    case O => (assert Occupied([[1, 1], [1, 1]], 0, 0);
      Piece(O, [[1, 1], [1, 1]], 2))
    case T => (assert Occupied([[0, 1, 0], [1, 1, 1]], 0, 1);
      Piece(T, [[0, 1, 0], [1, 1, 1]], 3))
    case S => (assert Occupied([[0, 1, 1], [1, 1, 0]], 0, 1);
      Piece(S, [[0, 1, 1], [1, 1, 0]], 4))
    case Z => (assert Occupied([[1, 1, 0], [0, 1, 1]], 0, 0);
      Piece(Z, [[1, 1, 0], [0, 1, 1]], 5))
    case J => (assert Occupied([[1, 0, 0], [1, 1, 1]], 0, 0);
      Piece(J, [[1, 0, 0], [1, 1, 1]], 6))
    case L => (assert Occupied([[0, 0, 1], [1, 1, 1]], 0, 2);
      Piece(L, [[0, 0, 1], [1, 1, 1]], 7))
  }

  /** Each kind has its own colour tag, so a locked cell tells its kind. */
  lemma ColorsDistinct(a: Kind, b: Kind)
    requires Catalogue(a).color == Catalogue(b).color
    ensures a == b
  {
    KindOfIndexOf(a);
    KindOfIndexOf(b);
  }

  /**
   The quarter turn of rotate: an R x C matrix becomes C x R, cell (i, j)
   moving to (j, R - 1 - i).
   */
  function Rotated(s: Shape): (r: Shape)
    requires Rectangular(s)
    ensures Rectangular(r) && |r| == |s[0]| && |r[0]| == |s|
  {
    seq(|s[0]|, j requires 0 <= j < |s[0]| =>
      seq(|s|, k requires 0 <= k < |s| => s[|s| - 1 - k][j]))
  }

  /** Cell (i, j) of s is cell (j, R - 1 - i) of the turned matrix. */
  lemma RotatedCell(s: Shape, i: int, j: int)
    requires Rectangular(s) && 0 <= i < |s| && 0 <= j < |s[0]|
    ensures Rotated(s)[j][|s| - 1 - i] == s[i][j]
  {
  }

  /** Where every cell goes under the quarter turn. */
  lemma RotatedCells(s: Shape)
    requires Rectangular(s)
    ensures forall i, j :: 0 <= i < |s| && 0 <= j < |s[0]| ==> Rotated(s)[j][|s| - 1 - i] == s[i][j]
  {
    forall i, j | 0 <= i < |s| && 0 <= j < |s[0]| {
      RotatedCell(s, i, j);
    }
  }

  /** Rotation keeps a shape in play well formed (dimensions swap, cells move). */
  lemma RotatedWellFormed(s: Shape)
    requires WellFormed(s)
    ensures WellFormed(Rotated(s))
  {
    var r := Rotated(s);
    forall j, k | 0 <= j < |r| && 0 <= k < |r[j]|
      ensures r[j][k] == 0 || r[j][k] == 1
    {
      assert r[j][|s| - 1 - (|s| - 1 - k)] == s[|s| - 1 - k][j];
    }
    var i, j :| Occupied(s, i, j);
    assert |s[i]| == |s[0]|;
    assert r[j][|s| - 1 - i] == s[i][j];
    assert Occupied(r, j, |s| - 1 - i);
  }

  /** Two quarter turns give the half turn: cell (i, j) moves to (R - 1 - i, C - 1 - j). */
  lemma HalfTurn(s: Shape)
    requires Rectangular(s)
    ensures var h := Rotated(Rotated(s));
      Rectangular(h) && |h| == |s| && |h[0]| == |s[0]|
      && forall i, j :: 0 <= i < |s| && 0 <= j < |s[0]| ==> h[i][j] == s[|s| - 1 - i][|s[0]| - 1 - j]
  {
    var r1 := Rotated(s);
    var h := Rotated(r1);
    var R, C := |s|, |s[0]|;
    forall i, j | 0 <= i < R && 0 <= j < C
      ensures h[i][j] == s[R - 1 - i][C - 1 - j]
    {
      assert h[i][C - 1 - (C - 1 - j)] == r1[C - 1 - j][i];
      assert r1[C - 1 - j][R - 1 - (R - 1 - i)] == s[R - 1 - i][C - 1 - j];
    }
  }

  /** Four quarter turns give back the original matrix. */
  lemma RotateFourTimes(s: Shape)
    requires Rectangular(s)
    ensures Rotated(Rotated(Rotated(Rotated(s)))) == s
  {
    var h := Rotated(Rotated(s));
    HalfTurn(s);
    HalfTurn(h);
    var f := Rotated(Rotated(h));
    forall i, j | 0 <= i < |s| && 0 <= j < |s[0]|
      ensures f[i][j] == s[i][j]
    {
      assert f[i][j] == h[|s| - 1 - i][|s[0]| - 1 - j];
    }
    SameCells(f, s);
  }

  /** Two rectangles of the same dimensions with the same cells are equal. */
  lemma SameCells(a: Shape, b: Shape)
    requires Rectangular(a) && Rectangular(b) && |a| == |b| && |a[0]| == |b[0]|
    requires forall i, j :: 0 <= i < |a| && 0 <= j < |a[0]| ==> a[i][j] == b[i][j]
    ensures a == b
  {
    forall i | 0 <= i < |a|
      ensures a[i] == b[i]
    {
      assert |a[i]| == |b[i]|;
    }
  }

  /**
   rotate's nested loop: fill a C x R matrix of zeros by
   `newShape[j][R - 1 - i] = shape[i][j]`.
   */
  method RotateShape(s: Shape) returns (r: Shape)
    requires Rectangular(s)
    ensures r == Rotated(s)
  {
    var rows, cols := |s|, |s[0]|;
    r := seq(cols, _ => seq(rows, _ => 0));
    var i := 0;
    while i < rows
      invariant 0 <= i <= rows
      invariant |r| == cols && forall j :: 0 <= j < cols ==> |r[j]| == rows
      invariant forall i', j :: 0 <= i' < i && 0 <= j < cols ==> r[j][rows - 1 - i'] == s[i'][j]
    {
      var j := 0;
      while j < cols
        invariant 0 <= j <= cols
        invariant |r| == cols && forall j' :: 0 <= j' < cols ==> |r[j']| == rows
        invariant forall i', j' :: 0 <= i' < i && 0 <= j' < cols ==> r[j'][rows - 1 - i'] == s[i'][j']
        invariant forall j' :: 0 <= j' < j ==> r[j'][rows - 1 - i] == s[i][j']
      {
        r := r[j := r[j][rows - 1 - i := s[i][j]]];
        j := j + 1;
      }
      i := i + 1;
    }
    var rot := Rotated(s);
    forall j | 0 <= j < cols
      ensures r[j] == rot[j]
    {
      forall k | 0 <= k < rows
        ensures r[j][k] == rot[j][k]
      {
        assert r[j][rows - 1 - (rows - 1 - k)] == s[rows - 1 - k][j];
      }
    }
  }
}
