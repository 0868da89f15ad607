/**
 The playing field: a HEIGHT x WIDTH grid of cells (0 empty, otherwise the
 colour tag of the piece locked there), the legality test canMove, and the
 specifications of lockPiece and clearLines as functions on grids.
 */
module Field {
  import opened Tetromino

  const WIDTH: int := 10
  const HEIGHT: int := 20

  type Row = seq<int>
  type Grid = seq<Row>

  /** HEIGHT rows of WIDTH cells each. */
  predicate GridShape(g: Grid) {
    |g| == HEIGHT && forall r :: 0 <= r < |g| ==> |g[r]| == WIDTH
  }

  /** Every cell is empty or holds one of the seven colour tags. */
  ghost predicate CellsInRange(g: Grid) {
    forall r, c :: 0 <= r < |g| && 0 <= c < |g[r]| ==> 0 <= g[r][c] <= 7
  }

  function EmptyRow(): (row: Row)
    ensures |row| == WIDTH && forall c :: 0 <= c < WIDTH ==> row[c] == 0
  {
    seq(WIDTH, _ => 0)
  }

  function EmptyGrid(): (g: Grid)
    ensures GridShape(g) && CellsInRange(g)
    ensures forall r, c :: 0 <= r < HEIGHT && 0 <= c < WIDTH ==> g[r][c] == 0
  {
    seq(HEIGHT, _ => EmptyRow())
  }

  // ---------------------------------------------------------------- canMove

  /** The test canMove applies to one occupied cell landing at column gx, row gy. */
  predicate CellFree(g: Grid, gx: int, gy: int)
    requires GridShape(g)
  {
    0 <= gx < WIDTH && gy < HEIGHT && (gy >= 0 ==> g[gy][gx] == 0)
  }

  /** Declarative legality: every occupied cell of s at offset (x, y) is free. */
  ghost predicate Placeable(g: Grid, s: Shape, x: int, y: int)
    requires GridShape(g)
  {
    forall i, j :: Occupied(s, i, j) ==> CellFree(g, x + j, y + i)
  }

  /** The inner loop of canMove over the cells of one shape row, from column j on. */
  function CellsFrom(g: Grid, row: seq<int>, x: int, gy: int, j: nat): (ok: bool)
    requires GridShape(g)
    requires j <= |row|
    decreases |row| - j
    ensures ok <==> forall j' :: j <= j' < |row| && row[j'] != 0 ==> CellFree(g, x + j', gy)
  {
    if j == |row| then true
    else if row[j] != 0 && (x + j < 0 || x + j >= WIDTH || gy >= HEIGHT) then false
    else if row[j] != 0 && gy >= 0 && g[gy][x + j] != 0 then false
    else CellsFrom(g, row, x, gy, j + 1)
  }

  /** The outer loop of canMove over the shape rows, from row i on. */
  function RowsFrom(g: Grid, s: Shape, x: int, y: int, i: nat): (ok: bool)
    requires GridShape(g)
    requires i <= |s|
    decreases |s| - i
    ensures ok <==> forall i', j :: i <= i' && Occupied(s, i', j) ==> CellFree(g, x + j, y + i')
  {
    if i == |s| then true
    else if !CellsFrom(g, s[i], x, y + i, 0) then
      assert exists j :: Occupied(s, i, j) && !CellFree(g, x + j, y + i) by {
        var j :| 0 <= j < |s[i]| && s[i][j] != 0 && !CellFree(g, x + j, y + i);
        assert Occupied(s, i, j);
      }
      false
    else RowsFrom(g, s, x, y, i + 1)
  }

  /**
   canMove(piece, newX, newY): scans the shape row by row and returns false at
   the first occupied cell that is out of the columns, below the floor, or on
   a filled cell of a visible row.
   */
  function CanMove(g: Grid, s: Shape, x: int, y: int): (ok: bool)
    requires GridShape(g)
    ensures ok <==> Placeable(g, s, x, y)
  {
    RowsFrom(g, s, x, y, 0)
  }

  /** The bounds half of canMove: every occupied cell is within the columns and above the floor. */
  ghost predicate InBounds(s: Shape, x: int, y: int) {
    forall i, j :: Occupied(s, i, j) ==> 0 <= x + j < WIDTH && y + i < HEIGHT
  }

  /** canMove rejects a cell outside the columns or below the floor, whatever the grid holds. */
  lemma CanMoveRejectsOutOfBounds(g: Grid, s: Shape, x: int, y: int, i: int, j: int)
    requires GridShape(g)
    requires Occupied(s, i, j)
    requires x + j < 0 || x + j >= WIDTH || y + i >= HEIGHT
    ensures !CanMove(g, s, x, y)
  {
  }

  /** canMove rejects a cell on a filled cell only in the visible rows. */
  lemma CanMoveCollision(g: Grid, s: Shape, x: int, y: int, i: int, j: int)
    requires GridShape(g)
    requires Occupied(s, i, j) && 0 <= x + j < WIDTH && 0 <= y + i < HEIGHT
    requires g[y + i][x + j] != 0
    ensures !CanMove(g, s, x, y)
  {
  }

  /** Cells above the field (row < 0) face the column bounds only. */
  lemma CanMoveAboveField(g: Grid, s: Shape, x: int, y: int)
    requires GridShape(g)
    requires forall i, j :: Occupied(s, i, j) ==> y + i < 0
    ensures CanMove(g, s, x, y) <==> InBounds(s, x, y)
  {
  }

  /** A placement canMove accepts lies within the columns and above the floor. */
  lemma PlaceableInBounds(g: Grid, s: Shape, x: int, y: int)
    requires GridShape(g)
    requires Placeable(g, s, x, y)
    ensures InBounds(s, x, y)
  {
  }

  /** A well-formed shape within bounds has its anchor row below HEIGHT (y < HEIGHT). */
  lemma InBoundsBelowHeight(s: Shape, x: int, y: int)
    requires WellFormed(s) && InBounds(s, x, y)
    ensures y < HEIGHT
  {
    var i, j :| Occupied(s, i, j);
  }

  /** On the empty field, every well-formed shape fits at (x, 0) for x <= WIDTH - 4. */
  lemma FitsEmptyGrid(s: Shape, x: int)
    requires WellFormed(s)
    requires 0 <= x <= WIDTH - 4
    ensures CanMove(EmptyGrid(), s, x, 0)
  {
    var g := EmptyGrid();
    forall i, j | Occupied(s, i, j)
      ensures CellFree(g, x + j, i)
    {
      assert |s[i]| == |s[0]|;
    }
  }

  // ------------------------------------------------------------- lockPiece

  /** Cell (r, c) of the field is covered by an occupied cell of s placed at (x, y). */
  predicate Covers(s: Shape, x: int, y: int, r: int, c: int) {
    Occupied(s, r - y, c - x)
  }

  /**
   The field after lockPiece: the colour tag on every cell the piece covers,
   every other cell as before.
   */
  function Locked(g: Grid, s: Shape, x: int, y: int, color: int): (r: Grid)
    ensures |r| == |g|
    ensures forall row :: 0 <= row < |g| ==> |r[row]| == |g[row]|
  {
    seq(|g|, row requires 0 <= row < |g| =>
      seq(|g[row]|, c requires 0 <= c < |g[row]| =>
        if Covers(s, x, y, row, c) then color else g[row][c]))
  }

  lemma LockedCell(g: Grid, s: Shape, x: int, y: int, color: int, row: int, c: int)
    requires 0 <= row < |g| && 0 <= c < |g[row]|
    ensures Locked(g, s, x, y, color)[row][c] == if Covers(s, x, y, row, c) then color else g[row][c]
  {
  }

  /** Locking a colour tag 1..7 keeps the field's shape and cell range. */
  lemma LockedWellFormed(g: Grid, s: Shape, x: int, y: int, color: int)
    requires GridShape(g) && CellsInRange(g) && 1 <= color <= 7
    ensures GridShape(Locked(g, s, x, y, color)) && CellsInRange(Locked(g, s, x, y, color))
  {
  }

  /**
   At a legal placement the piece lands on empty cells only: a cell goes
   from empty to filled exactly where the piece covers it.
   */
  lemma LockOnLegalPlacement(g: Grid, s: Shape, x: int, y: int, color: int)
    requires GridShape(g) && CanMove(g, s, x, y) && color != 0
    ensures forall r, c :: 0 <= r < HEIGHT && 0 <= c < WIDTH ==>
      (g[r][c] == 0 && Locked(g, s, x, y, color)[r][c] != 0 <==> Covers(s, x, y, r, c))
    ensures forall r, c :: 0 <= r < HEIGHT && 0 <= c < WIDTH && Covers(s, x, y, r, c) ==>
      Locked(g, s, x, y, color)[r][c] == color
  {
    forall r, c | 0 <= r < HEIGHT && 0 <= c < WIDTH && Covers(s, x, y, r, c)
      ensures g[r][c] == 0
    {
      assert CellFree(g, x + (c - x), y + (r - y));
    }
  }

  // ------------------------------------------------------------ clearLines

  /** The full-line test of clearLines: no cell of the row is empty. */
  predicate IsFull(row: Row) {
    forall c :: 0 <= c < |row| ==> row[c] != 0
  }

  ghost predicate NoFullRows(g: Grid) {
    forall r :: 0 <= r < |g| ==> !IsFull(g[r])
  }

  /** The number of full rows of g. */
  function NumFull(g: Grid): (n: nat)
    ensures n <= |g|
  {
    if g == [] then 0 else (if IsFull(g[0]) then 1 else 0) + NumFull(g[1..])
  }

  /** The non-full rows of g, in their order in g. */
  function KeepNonFull(g: Grid): (k: Grid)
    ensures |k| + NumFull(g) == |g|
  {
    if g == [] then []
    else (if IsFull(g[0]) then [] else [g[0]]) + KeepNonFull(g[1..])
  }

  /** No row kept is full. */
  lemma {:induction false} KeepNonFullNoFull(g: Grid)
    ensures NoFullRows(KeepNonFull(g))
  {
    if g != [] {
      KeepNonFullNoFull(g[1..]);
      var k, k' := KeepNonFull(g), KeepNonFull(g[1..]);
      forall r | 0 <= r < |k| ensures !IsFull(k[r]) {
        if IsFull(g[0]) || r > 0 {
          assert k[r] == k'[if IsFull(g[0]) then r else r - 1];
        }
      }
    }
  }

  /** Every row kept is a row of g. */
  lemma {:induction false} KeepNonFullRowsOf(g: Grid)
    ensures forall r :: 0 <= r < |KeepNonFull(g)| ==> KeepNonFull(g)[r] in g
  {
    if g != [] {
      KeepNonFullRowsOf(g[1..]);
      var k, k' := KeepNonFull(g), KeepNonFull(g[1..]);
      forall r | 0 <= r < |k| ensures k[r] in g {
        if !IsFull(g[0]) && r == 0 {
          assert k[0] == g[0];
        } else {
          var r' := if IsFull(g[0]) then r else r - 1;
          assert k[r] == k'[r'];
          assert k'[r'] in g[1..];
        }
      }
    }
  }

  function Zeros(n: nat): (z: Grid)
    ensures |z| == n
  {
    seq(n, _ => EmptyRow())
  }

  /**
   The field after clearLines: one empty row on top for each full row
   removed, then the rows that were not full, in their original order.
   */
  function Compacted(g: Grid): (r: Grid)
    ensures |r| == |g|
    ensures GridShape(g) ==> GridShape(r)
    ensures CellsInRange(g) ==> CellsInRange(r)
    ensures NoFullRows(r)
  {
    var z, k := Zeros(NumFull(g)), KeepNonFull(g);
    KeepNonFullRowsOf(g);
    KeepNonFullNoFull(g);
    assert !IsFull(EmptyRow()) by { assert EmptyRow()[0] == 0; }
    assert GridShape(g) ==> forall i :: 0 <= i < |k| ==> |k[i]| == WIDTH by {
      if GridShape(g) {
        forall i | 0 <= i < |k| ensures |k[i]| == WIDTH { var w :| 0 <= w < |g| && g[w] == k[i]; }
      }
    }
    z + k
  }

  /** Removing full rows keeps order: the filter distributes over concatenation. */
  lemma {:induction false} KeepNonFullAppend(a: Grid, b: Grid)
    ensures KeepNonFull(a + b) == KeepNonFull(a) + KeepNonFull(b)
    ensures NumFull(a + b) == NumFull(a) + NumFull(b)
  {
    if a == [] {
      assert a + b == b;
    } else {
      assert (a + b)[0] == a[0];
      assert (a + b)[1..] == a[1..] + b;
      KeepNonFullAppend(a[1..], b);
    }
  }

  /** A field with no full rows is its own filter. */
  lemma {:induction false} KeepNoFullRows(g: Grid)
    requires NoFullRows(g)
    ensures KeepNonFull(g) == g && NumFull(g) == 0
  {
    if g != [] {
      assert NoFullRows(g[1..]) by {
        forall r | 0 <= r < |g[1..]| ensures !IsFull(g[1..][r]) { assert g[1..][r] == g[r + 1]; }
      }
      KeepNoFullRows(g[1..]);
      assert [g[0]] + g[1..] == g;
    }
  }

  /** clearLines leaves a field without full rows unchanged, so clearing twice is clearing once. */
  lemma CompactedIdempotent(g: Grid)
    ensures Compacted(Compacted(g)) == Compacted(g)
    ensures NoFullRows(g) ==> Compacted(g) == g
  {
    KeepNoFullRows(Compacted(g));
    if NoFullRows(g) {
      KeepNoFullRows(g);
    }
  }

  /** Removing one full row: the rows around it keep their order. */
  lemma RemoveFullRow(a: Grid, f: Row, b: Grid)
    requires IsFull(f)
    ensures KeepNonFull(a + [f] + b) == KeepNonFull(a) + KeepNonFull(b)
    ensures NumFull(a + [f] + b) == NumFull(a) + 1 + NumFull(b)
  {
    FullRowAlone(f);
    KeepNonFullAppend(a, [f]);
    assert KeepNonFull(a + [f]) == KeepNonFull(a);
    KeepNonFullAppend(a + [f], b);
  }

  /**
   Two full rows with non-full rows between and around them: two empty rows
   on top, then the three runs of non-full rows in order.
   */
  lemma ClearTwoFullRows(a: Grid, f1: Row, b: Grid, f2: Row, c: Grid)
    requires NoFullRows(a) && NoFullRows(b) && NoFullRows(c)
    requires IsFull(f1) && IsFull(f2)
    ensures NumFull(a + [f1] + b + [f2] + c) == 2
    ensures Compacted(a + [f1] + b + [f2] + c) == Zeros(2) + (a + b + c)
  {
    KeepAroundTwoFullRows(a, f1, b, f2, c);
    CompactedOf(a + [f1] + b + [f2] + c, a + b + c, 2);
  }

  lemma CompactedOf(g: Grid, k: Grid, n: nat)
    requires KeepNonFull(g) == k && NumFull(g) == n
    ensures Compacted(g) == Zeros(n) + k
  {
  }

  lemma KeepAroundTwoFullRows(a: Grid, f1: Row, b: Grid, f2: Row, c: Grid)
    requires NoFullRows(a) && NoFullRows(b) && NoFullRows(c)
    requires IsFull(f1) && IsFull(f2)
    ensures KeepNonFull(a + [f1] + b + [f2] + c) == a + b + c
    ensures NumFull(a + [f1] + b + [f2] + c) == 2
  {
    KeepNoFullRows(a);
    KeepNoFullRows(b);
    KeepNoFullRows(c);
    RemoveFullRow(a, f1, b);
    RemoveFullRow(a + [f1] + b, f2, c);
  }

  lemma FullRowAlone(f: Row)
    requires IsFull(f)
    ensures KeepNonFull([f]) == [] && NumFull([f]) == 1
  {
    assert [f][1..] == [];
  }

  /**
   If every row outside [lo, hi) is non-full, at most hi - lo rows are full.
   */
  lemma {:induction false} NumFullWithin(g: Grid, lo: int, hi: int)
    requires 0 <= lo <= hi
    requires forall r :: 0 <= r < |g| && (r < lo || r >= hi) ==> !IsFull(g[r])
    ensures NumFull(g) <= hi - lo
  {
    if g != [] {
      var lo', hi' := if lo > 0 then lo - 1 else 0, if hi > 0 then hi - 1 else 0;
      forall r | 0 <= r < |g[1..]| && (r < lo' || r >= hi')
        ensures !IsFull(g[1..][r])
      {
        assert g[1..][r] == g[r + 1];
      }
      NumFullWithin(g[1..], lo', hi');
    }
  }

  /**
   On a field with no full rows, locking a piece fills at most as many rows
   as the shape is tall, so one clearLines removes at most |s| rows.
   */
  lemma LinesPerLockAtMost(g: Grid, s: Shape, x: int, y: int, color: int)
    requires NoFullRows(g) && 0 <= y
    ensures NumFull(Locked(g, s, x, y, color)) <= |s|
  {
    var lg := Locked(g, s, x, y, color);
    forall r | 0 <= r < |lg| && (r < y || r >= y + |s|)
      ensures !IsFull(lg[r])
    {
      assert lg[r] == g[r];
    }
    NumFullWithin(lg, y, y + |s|);
  }

  /** The top-row test of isGameOver. */
  predicate TopRowOccupied(g: Grid)
    requires GridShape(g)
  {
    exists c :: 0 <= c < WIDTH && g[0][c] != 0
  }
}
