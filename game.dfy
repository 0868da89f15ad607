/**
 The game-state engine of TetrisGame: the current piece and its anchor, the
 field, score, level, drop timer and pause menu, and the operations that
 move, rotate, drop, lock, clear and spawn.

 Each operation on the play state is specified by a pure transition on a
 PlayState snapshot (Shifted, Turned, Dropped, HardDropped, AfterSettle);
 the class methods are proved to perform exactly that transition, and the
 lemmas below prove what the transitions keep.
 */
module Game {
  import opened Tetromino
  import opened Field
  import opened Scoring
  import opened Controls

  /** spawnNewPiece's anchor column, WIDTH / 2. */
  const SPAWN_X: int := WIDTH / 2

  /** A piece in play: a well-formed shape with a colour tag 1..7. */
  ghost predicate PieceOk(p: Piece) {
    WellFormed(p.shape) && 1 <= p.color <= 7
  }

  /**
   The piece built from draw number d of the random source: `Tetromino(rand() % 7)`,
   the catalogue entry whose enum position is the draw reduced modulo 7.
   */
  function DrawnPiece(rand: nat -> nat, d: nat): (p: Piece)
    ensures p == Catalogue(p.kind) && IndexOf(p.kind) == rand(d) % 7 && PieceOk(p)
  {
    Catalogue(KindOfIndex(rand(d) % 7))
  }

  // ------------------------------------------------------ play state and invariant

  /** The fields of the game that the play operations read and write. */
  datatype PlayState = PlayState(
    grid: Grid, piece: Piece, x: int, y: int,
    score: int, level: int, finished: bool, draws: nat)

  /** The fields of the pause menu. */
  datatype MenuState = MenuState(paused: bool, selection: int, restart: bool)

  /**
   What holds between any two operations: the field is 20 x 10; the piece
   is well formed with a colour 1..7, within the columns, above the floor
   and at a row >= 0 (so lockPiece writes inside the field), and legal
   unless the game has been finished; the level is derived from the score.
   */
  ghost predicate PlayOk(st: PlayState) {
    && GridShape(st.grid)
    && PieceOk(st.piece)
    && 0 <= st.y && InBounds(st.piece.shape, st.x, st.y)
    && (!st.finished ==> Placeable(st.grid, st.piece.shape, st.x, st.y))
    && st.score >= 0 && st.level == LevelFor(st.score)
  }

  // ------------------------------------------------------- play transitions

  /**
   The play state of a new game, after d earlier draws: an empty field, the
   piece of draw d at the spawn anchor, score 0 and level 1.
   */
  function Initial(rand: nat -> nat, d: nat): PlayState {
    PlayState(EmptyGrid(), DrawnPiece(rand, d), SPAWN_X, 0, 0, 1, false, d + 1)
  }

  /** moveLeft (dx = -1) and moveRight (dx = 1): move only if canMove allows it. */
  ghost function Shifted(st: PlayState, dx: int): PlayState
    requires GridShape(st.grid)
  {
    if Placeable(st.grid, st.piece.shape, st.x + dx, st.y) then st.(x := st.x + dx) else st
  }

  /** rotate: take the quarter-turned shape only if canMove allows it at the same anchor. */
  ghost function Turned(st: PlayState): PlayState
    requires GridShape(st.grid) && Rectangular(st.piece.shape)
  {
    var turned := Rotated(st.piece.shape);
    if Placeable(st.grid, turned, st.x, st.y) then st.(piece := st.piece.(shape := turned)) else st
  }

  /**
   lockPiece, clearLines (with updateScore) and spawnNewPiece, in that
   order; a spawn that canMove rejects finishes the game.
   */
  ghost function AfterSettle(rand: nat -> nat, st: PlayState): PlayState
    requires GridShape(st.grid) && st.score >= 0
  {
    var locked := Locked(st.grid, st.piece.shape, st.x, st.y, st.piece.color);
    var g := Compacted(locked);
    var score := st.score + Points(NumFull(locked));
    var p := DrawnPiece(rand, st.draws);
    PlayState(g, p, SPAWN_X, 0, score, LevelFor(score),
      st.finished || !Placeable(g, p.shape, SPAWN_X, 0), st.draws + 1)
  }

  /** softDrop, and update's gravity step: one row down if possible, else lock, clear and spawn. */
  ghost function Dropped(rand: nat -> nat, st: PlayState): PlayState
    requires GridShape(st.grid) && st.score >= 0
  {
    if Placeable(st.grid, st.piece.shape, st.x, st.y + 1) then st.(y := st.y + 1)
    else AfterSettle(rand, st)
  }

  /**
   The row hardDrop's loop stops at: a row r >= y from which canMove
   rejects r + 1; LandingRowLegal proves every row on the way legal, so r
   is the first such row.
   */
  ghost function LandingRow(g: Grid, s: Shape, x: int, y: int): (r: int)
    requires GridShape(g) && WellFormed(s)
    decreases HEIGHT - y
    ensures y <= r && !Placeable(g, s, x, r + 1)
    ensures y < r ==> Placeable(g, s, x, r)
  {
    if Placeable(g, s, x, y + 1) then
      PlaceableInBounds(g, s, x, y + 1);
      InBoundsBelowHeight(s, x, y + 1);
      LandingRow(g, s, x, y + 1)
    else y
  }

  /**
   Every row the hard drop passes through, from y + 1 down to the landing
   row, is legal: the piece never crosses a filled cell on its way down.
   */
  lemma {:induction false} LandingRowLegal(g: Grid, s: Shape, x: int, y: int, r': int)
    requires GridShape(g) && WellFormed(s)
    requires y < r' <= LandingRow(g, s, x, y)
    decreases HEIGHT - y
    ensures Placeable(g, s, x, r')
  {
    if Placeable(g, s, x, y + 1) {
      PlaceableInBounds(g, s, x, y + 1);
      InBoundsBelowHeight(s, x, y + 1);
      if r' > y + 1 {
        LandingRowLegal(g, s, x, y + 1, r');
      }
    }
  }

  /**
   On the empty field a shape whose bottom row has an occupied cell (at
   column bottom) falls
   until that row is the floor row: it rests at row HEIGHT - |s|.
   */
  lemma {:induction false} RestsOnFloor(s: Shape, x: int, y: int, bottom: int)
    requires WellFormed(s) && Occupied(s, |s| - 1, bottom)
    requires 0 <= x && x + |s[0]| <= WIDTH && 0 <= y <= HEIGHT - |s|
    decreases HEIGHT - y
    ensures LandingRow(EmptyGrid(), s, x, y) == HEIGHT - |s|
  {
    var g := EmptyGrid();
    if y + |s| < HEIGHT {
      forall i, j | Occupied(s, i, j)
        ensures CellFree(g, x + j, y + 1 + i)
      {
        assert |s[i]| == |s[0]|;
      }
      RestsOnFloor(s, x, y + 1, bottom);
    } else {
      assert !CellFree(g, x + bottom, y + 1 + (|s| - 1));
    }
  }

  /** Every kind dropped from row 0 onto the empty field rests with its bottom row on the floor. */
  lemma FallsToFloor(k: Kind, x: int)
    requires 0 <= x && x + |Catalogue(k).shape[0]| <= WIDTH
    ensures LandingRow(EmptyGrid(), Catalogue(k).shape, x, 0) == HEIGHT - |Catalogue(k).shape|
  {
    var s := Catalogue(k).shape;
    if Occupied(s, |s| - 1, 0) {
      RestsOnFloor(s, x, 0, 0);
    } else {
      RestsOnFloor(s, x, 0, 1);
    }
  }

  /** hardDrop: fall to the landing row, then always lock, clear and spawn. */
  ghost function HardDropped(rand: nat -> nat, st: PlayState): PlayState
    requires GridShape(st.grid) && WellFormed(st.piece.shape) && st.score >= 0
  {
    AfterSettle(rand, st.(y := LandingRow(st.grid, st.piece.shape, st.x, st.y)))
  }

  /** The play-state effect of a command decoded while playing. */
  ghost function PlayAfter(cmd: Command, rand: nat -> nat, st: PlayState): PlayState
    requires GridShape(st.grid) && WellFormed(st.piece.shape) && st.score >= 0
  {
    match cmd
    case MoveLeft => Shifted(st, -1)
    case MoveRight => Shifted(st, 1)
    case Rotate => Turned(st)
    case SoftDrop => Dropped(rand, st)
    case HardDrop => HardDropped(rand, st)
    case _ => st
  }

  // ------------------------------------------------------------ menu transitions

  /** togglePause: flip the pause flag and put the cursor on Continue. */
  function Toggled(m: MenuState): MenuState {
    m.(paused := !m.paused, selection := CONTINUE)
  }

  /**
   The menu effect of a command decoded while paused. Enter on Continue
   toggles the pause, on Restart requests a restart and unpauses, on Exit
   only clears the restart request (and finishes the game, see PausedPlayAfter).
   */
  function MenuAfter(cmd: Command, m: MenuState): MenuState
    requires 0 <= m.selection < MENU_ITEMS
  {
    match cmd
    case MenuUp => m.(selection := PreviousItem(m.selection))
    case MenuDown => m.(selection := NextItem(m.selection))
    case MenuSelect =>
      if m.selection == CONTINUE then Toggled(m)
      else if m.selection == RESTART then m.(restart := true, paused := false)
      else m.(restart := false)
    case _ => m
  }

  /** While paused the only play-state effect is Enter on Exit setting isGameFinished. */
  function PausedPlayAfter(cmd: Command, m: MenuState, st: PlayState): PlayState {
    if cmd.MenuSelect? && m.selection == EXIT then st.(finished := true) else st
  }

  // ------------------------------------------------------------------ lemmas

  /** A piece in play spawns inside the field: the catalogue shapes are at most 4 wide. */
  lemma SpawnInBounds(p: Piece)
    requires WellFormed(p.shape)
    ensures InBounds(p.shape, SPAWN_X, 0)
  {
    FitsEmptyGrid(p.shape, SPAWN_X);
    PlaceableInBounds(EmptyGrid(), p.shape, SPAWN_X, 0);
  }

  /** Every kind fits at the spawn anchor of the empty field. */
  lemma SpawnFitsEmptyField(k: Kind)
    ensures Placeable(EmptyGrid(), Catalogue(k).shape, SPAWN_X, 0)
  {
    FitsEmptyGrid(Catalogue(k).shape, SPAWN_X);
  }

  /** A new game starts in a state that satisfies the invariant. */
  lemma InitialOk(rand: nat -> nat, d: nat)
    ensures PlayOk(Initial(rand, d))
    ensures NoFullRows(Initial(rand, d).grid) && CellsInRange(Initial(rand, d).grid)
  {
    var p := DrawnPiece(rand, d);
    SpawnFitsEmptyField(p.kind);
    SpawnInBounds(p);
    assert !IsFull(EmptyRow()) by { assert EmptyRow()[0] == 0; }
  }

  /**
   moveLeft and moveRight keep the invariant, and move the piece by exactly
   dx or not at all, the latter exactly when canMove rejects the target.
   */
  lemma ShiftedOk(st: PlayState, dx: int)
    requires PlayOk(st)
    ensures PlayOk(Shifted(st, dx))
    ensures Shifted(st, dx) == st.(x := st.x + dx) <==> Placeable(st.grid, st.piece.shape, st.x + dx, st.y) || dx == 0
    ensures !Placeable(st.grid, st.piece.shape, st.x + dx, st.y) ==> Shifted(st, dx) == st
  {
    if Placeable(st.grid, st.piece.shape, st.x + dx, st.y) {
      PlaceableInBounds(st.grid, st.piece.shape, st.x + dx, st.y);
    }
  }

  /** rotate keeps the invariant; a rejected rotation leaves the shape as it was. */
  lemma TurnedOk(st: PlayState)
    requires PlayOk(st)
    ensures PlayOk(Turned(st))
    ensures Placeable(st.grid, Rotated(st.piece.shape), st.x, st.y) ==>
      Turned(st) == st.(piece := st.piece.(shape := Rotated(st.piece.shape)))
    ensures !Placeable(st.grid, Rotated(st.piece.shape), st.x, st.y) ==> Turned(st) == st
  {
    var turned := Rotated(st.piece.shape);
    if Placeable(st.grid, turned, st.x, st.y) {
      RotatedWellFormed(st.piece.shape);
      PlaceableInBounds(st.grid, turned, st.x, st.y);
    }
  }

  /**
   Lock, clear and spawn keep the invariant: the score grows by one entry
   of the table, the level never drops, and the new piece is at the spawn
   anchor, the game being finished exactly when it is not placeable there.
   */
  lemma AfterSettleOk(rand: nat -> nat, st: PlayState)
    requires PlayOk(st)
    ensures PlayOk(AfterSettle(rand, st))
    ensures AfterSettle(rand, st).score - st.score in {0, 100, 300, 500, 800}
    ensures AfterSettle(rand, st).level >= st.level
    ensures AfterSettle(rand, st).x == SPAWN_X && AfterSettle(rand, st).y == 0
    ensures AfterSettle(rand, st).finished <==>
      st.finished || !Placeable(AfterSettle(rand, st).grid, AfterSettle(rand, st).piece.shape, SPAWN_X, 0)
  {
    AfterSettleKeeps(rand, st);
  }

  /** The two facts of AfterSettleOk that the drops build on. */
  lemma AfterSettleKeeps(rand: nat -> nat, st: PlayState)
    requires PlayOk(st)
    ensures PlayOk(AfterSettle(rand, st)) && AfterSettle(rand, st).level >= st.level
  {
    var r := AfterSettle(rand, st);
    SpawnInBounds(r.piece);
    LevelMonotonic(st.score, r.score);
  }

  /**
   The field between operations never has a full row and holds only tags
   0..7: settling compacts, and on such a field one lock fills at most as
   many rows as the piece is tall, so at most four lines clear at once.
   */
  lemma SettleField(rand: nat -> nat, st: PlayState)
    requires PlayOk(st) && NoFullRows(st.grid) && CellsInRange(st.grid)
    ensures NumFull(Locked(st.grid, st.piece.shape, st.x, st.y, st.piece.color)) <= 4
    ensures NoFullRows(AfterSettle(rand, st).grid) && CellsInRange(AfterSettle(rand, st).grid)
  {
    LockedWellFormed(st.grid, st.piece.shape, st.x, st.y, st.piece.color);
    LinesPerLockAtMost(st.grid, st.piece.shape, st.x, st.y, st.piece.color);
  }

  /** softDrop and gravity keep the invariant and never move the piece up or sideways without a spawn. */
  lemma DroppedOk(rand: nat -> nat, st: PlayState)
    requires PlayOk(st)
    ensures PlayOk(Dropped(rand, st))
    ensures Placeable(st.grid, st.piece.shape, st.x, st.y + 1) ==> Dropped(rand, st) == st.(y := st.y + 1)
    ensures !Placeable(st.grid, st.piece.shape, st.x, st.y + 1) ==> Dropped(rand, st).draws == st.draws + 1
    ensures Dropped(rand, st).level >= st.level
  {
    if Placeable(st.grid, st.piece.shape, st.x, st.y + 1) {
      PlaceableInBounds(st.grid, st.piece.shape, st.x, st.y + 1);
    } else {
      AfterSettleKeeps(rand, st);
    }
  }

  /**
   hardDrop keeps the invariant and the level never drops; where the piece
   locks is LandingRow's contract.
   */
  lemma HardDroppedOk(rand: nat -> nat, st: PlayState)
    requires PlayOk(st)
    ensures PlayOk(HardDropped(rand, st)) && HardDropped(rand, st).level >= st.level
  {
    LandedOk(st);
    AfterSettleKeeps(rand, st.(y := LandingRow(st.grid, st.piece.shape, st.x, st.y)));
  }

  /** The piece at its landing row is still a legal, in-bounds placement. */
  lemma LandedOk(st: PlayState)
    requires PlayOk(st)
    ensures PlayOk(st.(y := LandingRow(st.grid, st.piece.shape, st.x, st.y)))
  {
    var r := LandingRow(st.grid, st.piece.shape, st.x, st.y);
    if r > st.y {
      PlaceableInBounds(st.grid, st.piece.shape, st.x, r);
    }
  }

  /** Every play command keeps the invariant. */
  lemma PlayAfterOk(cmd: Command, rand: nat -> nat, st: PlayState)
    requires PlayOk(st)
    ensures PlayOk(PlayAfter(cmd, rand, st))
    ensures PlayAfter(cmd, rand, st).level >= st.level
  {
    match cmd
    case MoveLeft => ShiftedOk(st, -1);
    case MoveRight => ShiftedOk(st, 1);
    case Rotate => TurnedOk(st);
    case SoftDrop => DroppedOk(rand, st);
    case HardDrop => HardDroppedOk(rand, st);
    case _ =>
  }

  /**
   Every play command keeps the field free of full rows and its cells in
   0..7, so by SettleField every lock during play clears at most four rows.
   */
  lemma PlayAfterClean(cmd: Command, rand: nat -> nat, st: PlayState)
    requires PlayOk(st) && NoFullRows(st.grid) && CellsInRange(st.grid)
    ensures NoFullRows(PlayAfter(cmd, rand, st).grid) && CellsInRange(PlayAfter(cmd, rand, st).grid)
  {
    match cmd
    case SoftDrop =>
      if !Placeable(st.grid, st.piece.shape, st.x, st.y + 1) {
        SettleField(rand, st);
      }
    case HardDrop =>
      LandedOk(st);
      SettleField(rand, st.(y := LandingRow(st.grid, st.piece.shape, st.x, st.y)));
    case _ =>
  }

  /** While paused no command touches the field. */
  lemma PausedPlayAfterGrid(cmd: Command, m: MenuState, st: PlayState)
    ensures PausedPlayAfter(cmd, m, st).grid == st.grid
  {
  }

  /** The menu cursor stays on one of the three items. */
  lemma MenuAfterInRange(cmd: Command, m: MenuState)
    requires 0 <= m.selection < MENU_ITEMS
    ensures 0 <= MenuAfter(cmd, m).selection < MENU_ITEMS
    ensures cmd.MenuSelect? && m.selection == EXIT ==> MenuAfter(cmd, m).paused == m.paused
    ensures cmd.MenuSelect? && m.selection == RESTART ==> MenuAfter(cmd, m).restart && !MenuAfter(cmd, m).paused
  {
  }

  // -------------------------------------------------------------------- class

  datatype RunOutcome = Restarted | GameOverReached | InputExhausted

  class TetrisGame {
    var grid: Grid
    var currentPiece: Piece
    var currentX: int
    var currentY: int
    var score: int
    var level: int
    var dropTimer: int
    var isPaused: bool
    var isGameFinished: bool
    var shouldRestart: bool
    var pauseMenuSelection: int
    /** The successive results of rand(); draws counts how many have been used. */
    const rand: nat -> nat
    var draws: nat

    ghost function Play(): PlayState
      reads this`grid, this`currentPiece, this`currentX, this`currentY
      reads this`score, this`level, this`isGameFinished, this`draws
    {
      PlayState(grid, currentPiece, currentX, currentY, score, level, isGameFinished, draws)
    }

    ghost function Menu(): MenuState
      reads this`isPaused, this`pauseMenuSelection, this`shouldRestart
    {
      MenuState(isPaused, pauseMenuSelection, shouldRestart)
    }

    ghost predicate Valid()
      reads this
    {
      PlayOk(Play()) && 0 <= pauseMenuSelection < MENU_ITEMS && dropTimer >= 0
    }

    /** The constructor's member initialisers (the console set-up is not modelled). */
    constructor (rand: nat -> nat)
      ensures Valid() && this.rand == rand
      ensures Play() == Initial(rand, 0)
      ensures dropTimer == 0 && Menu() == MenuState(false, CONTINUE, false)
    {
      var p := DrawnPiece(rand, 0);
      InitialOk(rand, 0);
      this.rand := rand;
      grid := EmptyGrid();
      currentPiece := p;
      draws := 1;
      currentX := SPAWN_X;
      currentY := 0;
      score := 0;
      level := 1;
      dropTimer := 0;
      isPaused := false;
      isGameFinished := false;
      shouldRestart := false;
      pauseMenuSelection := CONTINUE;
    }

    /** getRandomTetromino: the next draw, taken modulo 7 and cast in enum order. */
    method GetRandomTetromino() returns (k: Kind)
      modifies this`draws
      ensures draws == old(draws) + 1
      ensures k == KindOfIndex(rand(old(draws)) % 7)
    {
      k := KindOfIndex(rand(draws) % 7);
      draws := draws + 1;
    }

    /** The state reset at the start of run. */
    method Reset()
      modifies this
      ensures Valid()
      ensures Play() == Initial(rand, old(draws))
      ensures dropTimer == 0 && Menu() == MenuState(false, CONTINUE, false)
    {
      dropTimer := 0;
      isPaused, shouldRestart, pauseMenuSelection := false, false, CONTINUE;
      ResetPlay();
      InitialOk(rand, old(draws));
    }

    /** The play fields of run's reset: an empty field, a fresh piece at the spawn anchor, no score. */
    method ResetPlay()
      modifies this`grid, this`currentPiece, this`currentX, this`currentY
      modifies this`score, this`level, this`isGameFinished, this`draws
      ensures Play() == Initial(rand, old(draws))
    {
      grid := EmptyGrid();
      var kind := GetRandomTetromino();
      currentPiece := Catalogue(kind);
      currentX, currentY := SPAWN_X, 0;
      score, level := 0, 1;
      isGameFinished := false;
    }

    method MoveLeft()
      requires Valid()
      modifies this`currentX
      ensures Valid() && Play() == Shifted(old(Play()), -1)
    {
      if CanMove(grid, currentPiece.shape, currentX - 1, currentY) {
        PlaceableInBounds(grid, currentPiece.shape, currentX - 1, currentY);
        currentX := currentX - 1;
      }
    }

    method MoveRight()
      requires Valid()
      modifies this`currentX
      ensures Valid() && Play() == Shifted(old(Play()), 1)
    {
      if CanMove(grid, currentPiece.shape, currentX + 1, currentY) {
        PlaceableInBounds(grid, currentPiece.shape, currentX + 1, currentY);
        currentX := currentX + 1;
      }
    }

    method Rotate()
      requires Valid()
      modifies this`currentPiece
      ensures Valid() && Play() == Turned(old(Play()))
    {
      var newShape := RotateShape(currentPiece.shape);
      var rotatedPiece := currentPiece.(shape := newShape);
      if CanMove(grid, rotatedPiece.shape, currentX, currentY) {
        RotatedWellFormed(currentPiece.shape);
        PlaceableInBounds(grid, rotatedPiece.shape, currentX, currentY);
        currentPiece := rotatedPiece;
      }
    }

    /**
     lockPiece: write the colour tag into every cell the piece covers. There
     is no guard; the precondition (kept by Valid) makes every write land in the field.
     */
    method LockPiece()
      requires GridShape(grid) && 0 <= currentY && InBounds(currentPiece.shape, currentX, currentY)
      modifies this`grid
      ensures grid == Locked(old(grid), currentPiece.shape, currentX, currentY, currentPiece.color)
    {
      ghost var g0 := grid;
      var s := currentPiece.shape;
      var i := 0;
      while i < |s|
        invariant 0 <= i <= |s|
        invariant |grid| == |g0| && forall r :: 0 <= r < |grid| ==> |grid[r]| == |g0[r]|
        invariant forall r, c :: 0 <= r < |grid| && 0 <= c < |grid[r]| ==>
          grid[r][c] == if Covers(s, currentX, currentY, r, c) && r - currentY < i
                        then currentPiece.color else g0[r][c]
      {
        var j := 0;
        while j < |s[i]|
          invariant 0 <= j <= |s[i]|
          invariant |grid| == |g0| && forall r :: 0 <= r < |grid| ==> |grid[r]| == |g0[r]|
          invariant forall r, c :: 0 <= r < |grid| && 0 <= c < |grid[r]| ==>
            grid[r][c] == if Covers(s, currentX, currentY, r, c)
                             && (r - currentY < i || (r - currentY == i && c - currentX < j))
                          then currentPiece.color else g0[r][c]
        {
          if s[i][j] != 0 {
            assert Occupied(s, i, j);
            grid := grid[currentY + i := grid[currentY + i][currentX + j := currentPiece.color]];
          }
          j := j + 1;
        }
        i := i + 1;
      }
      ghost var want := Locked(g0, s, currentX, currentY, currentPiece.color);
      forall r | 0 <= r < |grid|
        ensures grid[r] == want[r]
      {
        forall c | 0 <= c < |grid[r]|
          ensures grid[r][c] == want[r][c]
        {
          LockedCell(g0, s, currentX, currentY, currentPiece.color, r, c);
        }
      }
    }

    /**
     clearLines: scan from the bottom row up; a full row is erased, an empty
     row inserted on top, and the same index examined again. Then updateScore.
     */
    method ClearLines()
      requires GridShape(grid) && score >= 0
      modifies this`grid, this`score, this`level
      ensures grid == Compacted(old(grid))
      ensures score == old(score) + Points(NumFull(old(grid))) && level == LevelFor(score)
    {
      ghost var orig := grid;
      // orig[..p] is not yet examined; orig[p..] has been compacted below it
      ghost var p := HEIGHT;
      var linesCleared := 0;
      var y := HEIGHT - 1;
      assert orig[..HEIGHT] == orig && orig[HEIGHT..] == [];
      while y >= 0
        modifies this`grid
        invariant 0 <= p <= HEIGHT
        invariant GridShape(grid)
        invariant linesCleared == NumFull(orig[p..])
        invariant grid == Zeros(linesCleared) + orig[..p] + KeepNonFull(orig[p..])
        invariant -1 <= y && y + 1 <= linesCleared + p
        invariant p > 0 ==> y == linesCleared + p - 1
        decreases p + y + 1
      {
        var fullLine := RowIsFull(y);
        ScanRow(orig, p, linesCleared, grid, y);
        if fullLine {
          ClearStep(orig, p, linesCleared, grid, y);
          EraseRow(y);
          linesCleared := linesCleared + 1;
          p := p - 1;
          y := y + 1;
        } else if p > 0 {
          KeepStep(orig, p, linesCleared, grid);
          p := p - 1;
        }
        y := y - 1;
      }
      assert p == 0;
      ScanComplete(orig, linesCleared, grid);
      UpdateScore(linesCleared);
    }

    /** clearLines' inner loop: row y is full when no cell of it is 0. */
    method RowIsFull(y: int) returns (fullLine: bool)
      requires GridShape(grid) && 0 <= y < HEIGHT
      ensures fullLine <==> IsFull(grid[y])
    {
      fullLine := true;
      var x := 0;
      while x < WIDTH
        invariant 0 <= x <= WIDTH && fullLine
        invariant forall c :: 0 <= c < x ==> grid[y][c] != 0
      {
        if grid[y][x] == 0 {
          fullLine := false;
          break;
        }
        x := x + 1;
      }
    }

    /** Erase row y, then insert an empty row on top. */
    method EraseRow(y: int)
      requires GridShape(grid) && 0 <= y < HEIGHT
      modifies this`grid
      ensures GridShape(grid) && grid == [EmptyRow()] + (old(grid)[..y] + old(grid)[y + 1..])
    {
      EraseInsertShape(grid, y);
      grid := grid[..y] + grid[y + 1..];
      grid := [EmptyRow()] + grid;
    }

    /** updateScore: the points for this many lines, then the level from the new score. */
    method UpdateScore(linesCleared: int)
      requires score >= 0
      modifies this`score, this`level
      ensures score == old(score) + Points(linesCleared) && level == LevelFor(score)
    {
      if linesCleared == 1 {
        score := score + 100;
      } else if linesCleared == 2 {
        score := score + 300;
      } else if linesCleared == 3 {
        score := score + 500;
      } else if linesCleared == 4 {
        score := score + 800;
      }
      level := 1 + score / 1000;
    }

    /**
     spawnNewPiece: a fresh piece at (WIDTH / 2, 0). If canMove rejects it,
     gameOver() is called; of that call only its assignment to
     isGameFinished is modelled, and as in the source play goes on.
     */
    method SpawnNewPiece()
      requires GridShape(grid)
      modifies this`currentPiece, this`currentX, this`currentY, this`isGameFinished, this`draws
      ensures draws == old(draws) + 1 && currentPiece == DrawnPiece(rand, old(draws))
      ensures currentX == SPAWN_X && currentY == 0
      ensures isGameFinished == (old(isGameFinished) || !Placeable(grid, currentPiece.shape, SPAWN_X, 0))
      ensures PieceOk(currentPiece) && InBounds(currentPiece.shape, SPAWN_X, 0)
    {
      var kind := GetRandomTetromino();
      currentPiece := Catalogue(kind);
      SpawnInBounds(currentPiece);
      currentX := SPAWN_X;
      currentY := 0;
      if !CanMove(grid, currentPiece.shape, currentX, currentY) {
        isGameFinished := true;
      }
    }

    /** lockPiece(); clearLines(); spawnNewPiece(); as update, softDrop and hardDrop each run them. */
    method Settle()
      requires Valid()
      modifies this`grid, this`score, this`level, this`currentPiece, this`currentX, this`currentY
      modifies this`isGameFinished, this`draws
      ensures Valid() && Play() == AfterSettle(rand, old(Play()))
    {
      LockAndClear();
      SpawnNewPiece();
    }

    /** The first two steps of every settle: lockPiece(), then clearLines(). */
    method LockAndClear()
      requires Valid()
      modifies this`grid, this`score, this`level
      ensures GridShape(grid) && score >= 0
      ensures grid == Compacted(Locked(old(grid), currentPiece.shape, currentX, currentY, currentPiece.color))
      ensures score == old(score) + Points(NumFull(Locked(old(grid), currentPiece.shape, currentX, currentY, currentPiece.color)))
      ensures level == LevelFor(score)
    {
      LockPiece();
      ClearLines();
    }

    method SoftDrop()
      requires Valid()
      modifies this`grid, this`score, this`level, this`currentPiece, this`currentX, this`currentY
      modifies this`isGameFinished, this`draws
      ensures Valid() && Play() == Dropped(rand, old(Play()))
    {
      if CanMove(grid, currentPiece.shape, currentX, currentY + 1) {
        Fall();
      } else {
        Settle();
      }
    }

    /** The piece moves one row down (`currentY++`) where canMove allows it. */
    method Fall()
      requires Valid() && Placeable(grid, currentPiece.shape, currentX, currentY + 1)
      modifies this`currentY
      ensures Valid() && Play() == old(Play()).(y := old(currentY) + 1)
    {
      PlaceableInBounds(grid, currentPiece.shape, currentX, currentY + 1);
      currentY := currentY + 1;
    }

    method HardDrop()
      requires Valid()
      modifies this`grid, this`score, this`level, this`currentPiece, this`currentX, this`currentY
      modifies this`isGameFinished, this`draws
      ensures Valid() && Play() == HardDropped(rand, old(Play()))
    {
      ghost var st := Play();
      LandedOk(st);
      // the loop of hardDrop, run on copies of the fields it reads and writes
      var g, s, x, y := grid, currentPiece.shape, currentX, currentY;
      ghost var landing := LandingRow(g, s, x, y);
      while CanMove(g, s, x, y + 1)
        invariant st.y <= y <= landing
        invariant LandingRow(g, s, x, y) == landing
        decreases landing - y
      {
        y := y + 1;
      }
      currentY := y;
      assert Play() == st.(y := landing);
      Settle();
    }

    /**
     update: count one tick; once the timer reaches 20 - level, drop one row
     or lock, clear and spawn, and restart the timer.
     */
    method Update()
      requires Valid()
      modifies this`dropTimer, this`grid, this`score, this`level, this`currentPiece
      modifies this`currentX, this`currentY, this`isGameFinished, this`draws
      ensures Valid()
      ensures old(GravityDue(dropTimer + 1, level)) ==> dropTimer == 0 && Play() == Dropped(rand, old(Play()))
      ensures !old(GravityDue(dropTimer + 1, level)) ==> dropTimer == old(dropTimer) + 1 && Play() == old(Play())
    {
      dropTimer := dropTimer + 1;
      if dropTimer >= 20 - level {
        // the same branch as softDrop: one row down, or lock, clear and spawn
        SoftDrop();
        dropTimer := 0;
      }
    }

    method TogglePause()
      requires Valid()
      modifies this`isPaused, this`pauseMenuSelection
      ensures Valid() && Menu() == Toggled(old(Menu()))
    {
      isPaused := !isPaused;
      pauseMenuSelection := CONTINUE;
    }

    /** handlePauseMenuSelection: Enter on the selected item. */
    method HandlePauseMenuSelection()
      requires Valid()
      modifies this`isPaused, this`pauseMenuSelection, this`shouldRestart, this`isGameFinished
      ensures Valid()
      ensures Menu() == MenuAfter(MenuSelect, old(Menu()))
      ensures Play() == PausedPlayAfter(MenuSelect, old(Menu()), old(Play()))
    {
      if pauseMenuSelection == CONTINUE {
        TogglePause();
      } else if pauseMenuSelection == RESTART {
        shouldRestart := true;
        isPaused := false;
      } else if pauseMenuSelection == EXIT {
        isGameFinished := true;
        shouldRestart := false;
      }
    }

    /** handleInput for one key (None when no key is pending). */
    method HandleInput(key: Option<int>)
      requires Valid()
      modifies this
      ensures Valid() && dropTimer == old(dropTimer)
      ensures key.None? ==> Play() == old(Play()) && Menu() == old(Menu())
      ensures key.Some? && old(isPaused) ==>
        && Menu() == MenuAfter(Decode(true, key.value), old(Menu()))
        && Play() == PausedPlayAfter(Decode(true, key.value), old(Menu()), old(Play()))
      ensures key.Some? && !old(isPaused) ==>
        && Play() == PlayAfter(Decode(false, key.value), rand, old(Play()))
        && Menu() == if Decode(false, key.value).TogglePause? then Toggled(old(Menu())) else old(Menu())
    {
      if key.Some? {
        var cmd := Decode(isPaused, key.value);
        if isPaused {
          HandleMenuCommand(cmd);
        } else {
          HandlePlayCommand(cmd);
        }
      }
    }

    /** handleInput's switch while paused: the arrows move the cursor, Enter selects. */
    method HandleMenuCommand(cmd: Command)
      requires Valid()
      modifies this`isPaused, this`pauseMenuSelection, this`shouldRestart, this`isGameFinished
      ensures Valid()
      ensures Menu() == MenuAfter(cmd, old(Menu()))
      ensures Play() == PausedPlayAfter(cmd, old(Menu()), old(Play()))
    {
      match cmd
      case MenuUp => pauseMenuSelection := PreviousItem(pauseMenuSelection);
      case MenuDown => pauseMenuSelection := NextItem(pauseMenuSelection);
      case MenuSelect => HandlePauseMenuSelection();
      case _ =>
    }

    /** handleInput's switch while playing: one operation per command. */
    method HandlePlayCommand(cmd: Command)
      requires Valid()
      modifies this`grid, this`score, this`level, this`currentPiece, this`currentX, this`currentY
      modifies this`isGameFinished, this`draws, this`isPaused, this`pauseMenuSelection
      ensures Valid()
      ensures Play() == PlayAfter(cmd, rand, old(Play()))
      ensures Menu() == if cmd.TogglePause? then Toggled(old(Menu())) else old(Menu())
    {
      if cmd.SoftDrop? || cmd.HardDrop? {
        HandleDropCommand(cmd);
      } else {
        match cmd
        case MoveLeft => MoveLeft();
        case MoveRight => MoveRight();
        case Rotate => Rotate();
        case TogglePause => TogglePause();
        case _ =>
      }
    }

    /** The two drop keys of the playing switch: down or S, and space. */
    method HandleDropCommand(cmd: Command)
      requires Valid() && (cmd.SoftDrop? || cmd.HardDrop?)
      modifies this`grid, this`score, this`level, this`currentPiece, this`currentX, this`currentY
      modifies this`isGameFinished, this`draws
      ensures Valid() && Play() == PlayAfter(cmd, rand, old(Play()))
    {
      if cmd.SoftDrop? {
        SoftDrop();
      } else {
        HardDrop();
      }
    }

    /** isGameOver: some cell of the top row is filled. */
    method IsGameOver() returns (over: bool)
      requires GridShape(grid)
      ensures over <==> TopRowOccupied(grid)
    {
      var x := 0;
      while x < WIDTH
        invariant 0 <= x <= WIDTH
        invariant forall c :: 0 <= c < x ==> grid[0][c] == 0
      {
        if grid[0][x] != 0 {
          return true;
        }
        x := x + 1;
      }
      return false;
    }

    /** One pass of run's loop body: handle the pending key, then update unless paused. */
    method Tick(key: Option<int>)
      requires Valid()
      modifies this
      ensures Valid()
      ensures old(isPaused) && isPaused ==>
        && grid == old(grid) && currentPiece == old(currentPiece)
        && currentX == old(currentX) && currentY == old(currentY)
        && score == old(score) && dropTimer == old(dropTimer)
    {
      HandleInput(key);
      if !isPaused {
        Update();
      }
    }

    /**
     run, over a finite sequence of polled keys (one per tick): reset the
     state, then tick while the top row is empty, returning at once when a
     restart is requested. When the top row fills, gameOver() is called; only
     its assignment to isGameFinished is modelled.
     */
    method Run(keys: seq<Option<int>>) returns (outcome: RunOutcome)
      modifies this
      ensures Valid()
      ensures outcome == Restarted ==> shouldRestart
      ensures outcome == GameOverReached ==> TopRowOccupied(grid) && isGameFinished && !shouldRestart
      ensures outcome == InputExhausted ==> !TopRowOccupied(grid) && !shouldRestart
    {
      Reset();
      var i := 0;
      var over := IsGameOver();
      while !over && i < |keys|
        invariant Valid() && 0 <= i <= |keys| && !shouldRestart
        invariant over <==> TopRowOccupied(grid)
        decreases |keys| - i
      {
        Tick(keys[i]);
        i := i + 1;
        if shouldRestart {
          return Restarted;
        }
        over := IsGameOver();
      }
      if over {
        isGameFinished := true;
        return GameOverReached;
      }
      return InputExhausted;
    }
  }

  // ---------------------------------------------------- clearLines loop steps

  /** With every row examined, the field is the compacted original. */
  lemma ScanComplete(orig: Grid, n: nat, grid: Grid)
    requires n == NumFull(orig[0..])
    requires grid == Zeros(n) + orig[..0] + KeepNonFull(orig[0..])
    ensures grid == Compacted(orig) && n == NumFull(orig)
  {
    assert orig[0..] == orig;
    assert Zeros(n) + orig[..0] == Zeros(n);
  }

  /** A full row at the scan index: erase it and insert an empty row on top. */
  lemma ClearStep(orig: Grid, p: int, n: nat, grid: Grid, y: int)
    requires 0 < p <= |orig| && y == n + p - 1
    requires n == NumFull(orig[p..])
    requires grid == Zeros(n) + orig[..p] + KeepNonFull(orig[p..])
    requires IsFull(orig[p - 1])
    ensures n + 1 == NumFull(orig[p - 1..])
    ensures [EmptyRow()] + (grid[..y] + grid[y + 1..])
         == Zeros(n + 1) + orig[..p - 1] + KeepNonFull(orig[p - 1..])
  {
    SuffixStep(orig, p);
    ZerosPush(n);
    EraseAndPush(grid, Zeros(n), orig, KeepNonFull(orig[p..]), EmptyRow(), p, y,
      Zeros(n + 1), KeepNonFull(orig[p - 1..]));
  }

  /**
   Erasing element y = |z| + p - 1 of g = z + o[..p] + k and pushing t on
   top gives z' + o[..p - 1] + k', for z' = [t] + z and k' = k.
   */
  lemma EraseAndPush<T>(g: seq<T>, z: seq<T>, o: seq<T>, k: seq<T>, t: T, p: int, y: int, z': seq<T>, k': seq<T>)
    requires 0 < p <= |o| && g == z + o[..p] + k && y == |z| + p - 1
    requires z' == [t] + z && k' == k
    ensures [t] + (g[..y] + g[y + 1..]) == z' + o[..p - 1] + k'
  {
    assert g[..y] == z + o[..p - 1];
    assert g[y + 1..] == k;
  }

  /** One more empty row on top of n empty rows. */
  lemma ZerosPush(n: nat)
    ensures Zeros(n + 1) == [EmptyRow()] + Zeros(n)
  {
  }

  /**
   The row at the scan index is the last unexamined row of the original
   field, or, once all of it is examined, one of the empty rows on top.
   */
  lemma ScanRow(orig: Grid, p: int, n: nat, grid: Grid, y: int)
    requires 0 <= p <= |orig| && 0 <= y < n + p && (p > 0 ==> y == n + p - 1)
    requires grid == Zeros(n) + orig[..p] + KeepNonFull(orig[p..])
    ensures p > 0 ==> grid[y] == orig[p - 1]
    ensures p == 0 ==> !IsFull(grid[y])
  {
    if p == 0 {
      assert grid[y] == EmptyRow();
      assert grid[y][0] == 0;
    }
  }

  /** Erasing a row and inserting an empty one on top keeps the field 20 x 10. */
  lemma EraseInsertShape(g: Grid, y: int)
    requires GridShape(g) && 0 <= y < |g|
    ensures GridShape([EmptyRow()] + (g[..y] + g[y + 1..]))
  {
  }

  /** A non-full row at the scan index: it stays, and joins the compacted part. */
  lemma KeepStep(orig: Grid, p: int, n: nat, grid: Grid)
    requires 0 < p <= |orig|
    requires n == NumFull(orig[p..])
    requires grid == Zeros(n) + orig[..p] + KeepNonFull(orig[p..])
    requires !IsFull(orig[p - 1])
    ensures n == NumFull(orig[p - 1..])
    ensures grid == Zeros(n) + orig[..p - 1] + KeepNonFull(orig[p - 1..])
  {
    SuffixStep(orig, p);
    assert orig[..p] == orig[..p - 1] + [orig[p - 1]];
  }

  lemma SuffixStep(g: Grid, p: int)
    requires 0 < p <= |g|
    ensures IsFull(g[p - 1]) ==> KeepNonFull(g[p - 1..]) == KeepNonFull(g[p..])
    ensures !IsFull(g[p - 1]) ==> KeepNonFull(g[p - 1..]) == [g[p - 1]] + KeepNonFull(g[p..])
    ensures NumFull(g[p - 1..]) == (if IsFull(g[p - 1]) then 1 else 0) + NumFull(g[p..])
  {
    assert g[p - 1..][0] == g[p - 1];
    assert g[p - 1..][1..] == g[p..];
    assert [] + KeepNonFull(g[p..]) == KeepNonFull(g[p..]);
  }

}
