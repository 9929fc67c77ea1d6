/**
  The game object: a board of tile values held in a two-dimensional array,
  the value that wins, and a stack of earlier boards for undo.

  The ghost field `grid` is the board as a value and mirrors the array cell
  for cell. Every operation that changes the board states its new `grid` as
  a function of the old one; what those functions guarantee is proved in
  Board and Sliding and, for the end-of-game tests, below.
 */
module Game {
  import opened Board
  import opened Cells
  import opened Sliding

  datatype Exception = IllegalArgument | IllegalState

  /** How an operation that may throw ended. */
  datatype Outcome = Completed | Threw(exception: Exception)

  datatype GameStatus = IN_PROGRESS | USER_LOST | USER_WON

  // ---------------------------------------------------------------------
  // The end-of-game tests on board values

  /** Some cell holds the winning value. */
  ghost predicate Won(g: Grid, w: int) {
    exists i, j :: 0 <= i < |g| && 0 <= j < |g[i]| && g[i][j] == w
  }

  /** Some cell before row `a`, or in row `a` before column `b`, holds `w`. */
  ghost predicate WonBefore(g: Grid, w: int, a: int, b: int) {
    exists i, j :: 0 <= i < |g| && 0 <= j < |g[i]| && (i < a || (i == a && j < b)) && g[i][j] == w
  }

  /** What the game asks: an empty cell, or a slide in some direction that changes the board. */
  ghost predicate MoveLeft(g: Grid)
    requires Rect(g)
  {
    HasEmpty(g) || SlidePhase(g, UP).changed || SlidePhase(g, DOWN).changed
    || SlidePhase(g, LEFT).changed || SlidePhase(g, RIGHT).changed
  }

  /** The cell (i, j) and the one below it hold the same value. */
  ghost predicate MatchesBelow(g: Grid, i: nat, j: nat) {
    i + 1 < |g| && j < |g[i]| && j < |g[i + 1]| && g[i][j] == g[i + 1][j]
  }

  /** The cell (i, j) and the one to its right hold the same value. */
  ghost predicate MatchesRight(g: Grid, i: nat, j: nat) {
    i < |g| && j + 1 < |g[i]| && g[i][j] == g[i][j + 1]
  }

  ghost predicate VerticalPair(g: Grid) {
    exists i: nat, j: nat :: MatchesBelow(g, i, j)
  }

  ghost predicate HorizontalPair(g: Grid) {
    exists i: nat, j: nat :: MatchesRight(g, i, j)
  }

  /** No slide in any direction changes the board. */
  ghost predicate Stuck(g: Grid)
    requires Rect(g)
  {
    !SlidePhase(g, UP).changed && !SlidePhase(g, DOWN).changed
    && !SlidePhase(g, LEFT).changed && !SlidePhase(g, RIGHT).changed
  }

  /** A win takes precedence over a loss. */
  ghost function StatusOf(g: Grid, w: int): GameStatus
    requires Rect(g)
  {
    if Won(g, w) then USER_WON
    else if !MoveLeft(g) then USER_LOST
    else IN_PROGRESS
  }

  /** The tile a random draw of 0 or 1 produces: 2 to the power draw + 1. */
  function GenerateValue(draw: nat): (value: int)
    requires draw < 2
    ensures value == 2 || value == 4
    ensures value == 2 <==> draw == 0
    ensures IsPowerOf2(value)
  {
    Pow2IsPowerOf2(draw + 1);
    Pow2(draw + 1)
  }

  /** `after` is `before` with a 2 or a 4 written into one of its empty cells. */
  ghost predicate Spawned(before: Grid, after: Grid)
    requires Rect(before)
  {
    exists r: nat, c: nat, v: int :: r < |before| && c < Cols(before) && before[r][c] == 0
      && (v == 2 || v == 4) && after == Set(before, r, c, v)
  }

  /** Some tile of the list stands at (i, j). */
  ghost predicate Listed(tiles: seq<Cell>, i: int, j: int) {
    exists k :: 0 <= k < |tiles| && tiles[k].row == i && tiles[k].column == j
  }

  /** `t` extends `s` by copies of `g` only. */
  ghost predicate Leaked(s: seq<Grid>, t: seq<Grid>, g: Grid) {
    s <= t && forall k :: |s| <= k < |t| ==> t[k] == g
  }

  // ---------------------------------------------------------------------
  // Lemmas about the end-of-game tests

  /** On a full board a vertical slide changes something exactly when two vertical neighbours match. */
  lemma FullBoardVertical(g: Grid, d: Direction)
    requires Rect(g) && !HasEmpty(g) && (d == UP || d == DOWN)
    ensures SlidePhase(g, d).changed <==> VerticalPair(g)
  {
    SlideChangedIffCanMove(g, d);
    if CanMove(g, d) {
      var r: nat, c: nat :| r < |g| && c < Cols(g) && Movable(g, d, r, c);
      var i := if d == UP then r - 1 else r;
      assert MatchesBelow(g, i, c);
    }
    if VerticalPair(g) {
      var i: nat, j: nat :| MatchesBelow(g, i, j);
      var r := if d == UP then i + 1 else i;
      assert g[r][j] != 0;
      assert Movable(g, d, r, j);
    }
  }

  /** On a full board a horizontal slide changes something exactly when two horizontal neighbours match. */
  lemma FullBoardHorizontal(g: Grid, d: Direction)
    requires Rect(g) && !HasEmpty(g) && (d == LEFT || d == RIGHT)
    ensures SlidePhase(g, d).changed <==> HorizontalPair(g)
  {
    SlideChangedIffCanMove(g, d);
    if CanMove(g, d) {
      var r: nat, c: nat :| r < |g| && c < Cols(g) && Movable(g, d, r, c);
      var j := if d == LEFT then c - 1 else c;
      assert MatchesRight(g, r, j);
    }
    if HorizontalPair(g) {
      var i: nat, j: nat :| MatchesRight(g, i, j);
      var c := if d == LEFT then j + 1 else j;
      assert g[i][c] != 0;
      assert Movable(g, d, i, c);
    }
  }

  /** A move is left exactly when a cell is empty or two neighbours hold the same value. */
  lemma MoveLeftIff(g: Grid)
    requires Rect(g)
    ensures MoveLeft(g) <==> HasEmpty(g) || VerticalPair(g) || HorizontalPair(g)
  {
    if !HasEmpty(g) {
      FullBoardVertical(g, UP);
      FullBoardVertical(g, DOWN);
      FullBoardHorizontal(g, LEFT);
      FullBoardHorizontal(g, RIGHT);
    }
  }

  /** The three statuses in terms of the board alone. */
  lemma StatusOfIff(g: Grid, w: int)
    requires Rect(g)
    ensures StatusOf(g, w) == USER_WON <==> Won(g, w)
    ensures StatusOf(g, w) == USER_LOST <==>
              !Won(g, w) && !HasEmpty(g) && !VerticalPair(g) && !HorizontalPair(g)
    ensures StatusOf(g, w) == IN_PROGRESS <==>
              !Won(g, w) && (HasEmpty(g) || VerticalPair(g) || HorizontalPair(g))
  {
    MoveLeftIff(g);
  }

  /** A board of at least two cells with one tile placed still has an empty cell. */
  lemma RoomForSecond(rows: nat, cols: nat, r: int, c: int, x: int)
    requires rows * cols >= 2 && 0 <= r < rows && 0 <= c < cols
    ensures HasEmpty(Set(Zeros(rows, cols), r, c, x))
  {
    var g := Set(Zeros(rows, cols), r, c, x);
    var i, j := 0, 0;
    if r == 0 && c == 0 {
      if cols > 1 { j := 1; } else { i := 1; }
    }
    assert g[i][j] == 0;
  }

  lemma LeakOne(s: seq<Grid>, g: Grid)
    ensures Leaked(s, s + [g], g)
  {
    assert s <= s + [g];
  }

  lemma LeakedTrans(s: seq<Grid>, t: seq<Grid>, u: seq<Grid>, g: Grid)
    requires Leaked(s, t, g) && Leaked(t, u, g)
    ensures Leaked(s, u, g)
  {
    forall k | |s| <= k < |u|
      ensures u[k] == g
    {
      if k < |t| {
        assert u[k] == t[k];
      }
    }
  }

  // ---------------------------------------------------------------------
  // The game object

  class NumberGame {
    /** The board, `null` until the first resize. */
    var gameBoard: array2?<int>
    var winningValue: int
    /** Earlier boards, most recent last. */
    var undoStack: seq<Grid>
    /** The board's values. */
    ghost var grid: Grid

    ghost predicate Valid()
      reads this, gameBoard
    {
      Rect(grid)
      && (gameBoard == null ==> grid == [])
      && (gameBoard != null ==>
            Shaped(grid, gameBoard.Length0, gameBoard.Length1)
            && forall i, j :: 0 <= i < gameBoard.Length0 && 0 <= j < gameBoard.Length1 ==>
                 gameBoard[i, j] == grid[i][j])
      && forall k :: 0 <= k < |undoStack| ==> Rect(undoStack[k])
    }

    /** There is a board with at least one row, as most operations need. */
    ghost predicate Ready()
      reads this
    {
      gameBoard != null && gameBoard.Length0 > 0
    }

    constructor ()
      ensures Valid() && gameBoard == null && winningValue == 1024 && undoStack == []
    {
      gameBoard := null;
      winningValue := 1024;
      undoStack := [];
      grid := [];
    }

    /** Writes one cell of the array and of its mirror. */
    method Write(r: nat, c: nat, x: int)
      requires Valid() && gameBoard != null && r < gameBoard.Length0 && c < gameBoard.Length1
      modifies this`grid, gameBoard
      ensures Valid() && grid == Set(old(grid), r, c, x)
    {
      gameBoard[r, c] := x;
      grid := Set(grid, r, c, x);
    }

    /**
      A board of `height` by `width` empty cells, unless the winning value
      is not a power of two. The undo stack is kept.
     */
    method ResizeBoard(height: nat, width: nat, winV: int) returns (outcome: Outcome)
      requires Valid()
      modifies this
      ensures Valid() && undoStack == old(undoStack)
      ensures outcome.Threw? <==> !(winV >= 1 && Pow2(Log2(winV)) == winV)
      ensures outcome.Threw? ==>
                outcome == Threw(IllegalArgument) && gameBoard == old(gameBoard)
                && grid == old(grid) && winningValue == old(winningValue)
      ensures !outcome.Threw? ==>
                outcome == Completed && fresh(gameBoard) && gameBoard.Length0 == height
                && gameBoard.Length1 == width && grid == Zeros(height, width) && winningValue == winV
    {
      IsPowerOf2Exactly(winV);
      if !IsPowerOf2(winV) || winV < 0 {
        return Threw(IllegalArgument);
      }
      gameBoard := new int[height, width]((i, j) => 0);
      grid := Zeros(height, width);
      winningValue := winV;
      return Completed;
    }

    /** Copies the top-left `|ref|` by `|ref[0]|` corner of `ref` onto the board. */
    method SetValues(ref: seq<seq<int>>)
      requires Valid() && gameBoard != null
      requires 0 < |ref| <= gameBoard.Length0 && |ref[0]| <= gameBoard.Length1
      requires forall i :: 0 <= i < |ref| ==> |ref[0]| <= |ref[i]|
      modifies this`grid, gameBoard
      ensures Valid()
      ensures forall i, j :: 0 <= i < gameBoard.Length0 && 0 <= j < gameBoard.Length1 ==>
                grid[i][j] == if i < |ref| && j < |ref[0]| then ref[i][j] else old(grid)[i][j]
    {
      var rows, cols := |ref|, |ref[0]|;
      var i := 0;
      while i < rows
        invariant 0 <= i <= rows
        invariant Valid()
        invariant forall i', j' :: 0 <= i' < gameBoard.Length0 && 0 <= j' < gameBoard.Length1 ==>
                    grid[i'][j'] == if i' < i && j' < cols then ref[i'][j'] else old(grid)[i'][j']
      {
        var j := 0;
        while j < cols
          invariant 0 <= j <= cols
          invariant Valid()
          invariant forall i', j' :: 0 <= i' < gameBoard.Length0 && 0 <= j' < gameBoard.Length1 ==>
                      grid[i'][j'] == if (i' < i || (i' == i && j' < j)) && j' < cols then ref[i'][j'] else old(grid)[i'][j']
        {
          Write(i, j, ref[i][j]);
          j := j + 1;
        }
        i := i + 1;
      }
    }

    /** Writes a 2 or a 4 into an empty cell; the cell and the draw are arbitrary. */
    method PlaceRandomValue() returns (cell: Cell)
      requires Valid() && gameBoard != null && HasEmpty(grid)
      modifies this`grid, gameBoard
      ensures Valid()
      ensures 0 <= cell.row < |old(grid)| && 0 <= cell.column < Cols(old(grid))
      ensures old(grid)[cell.row][cell.column] == 0
      ensures cell.value == 2 || cell.value == 4
      ensures !cell.recentlyMerged
      ensures grid == Set(old(grid), cell.row, cell.column, cell.value)
    {
      var r: nat, c: nat :| r < gameBoard.Length0 && c < gameBoard.Length1 && gameBoard[r, c] == 0;
      var draw: nat :| draw < 2;
      var value := GenerateValue(draw);
      Write(r, c, value);
      cell := Cell(r, c, value, false);
    }

    /** Empties the board and places two random tiles. */
    method Reset()
      requires Valid() && Ready() && gameBoard.Length0 * gameBoard.Length1 >= 2
      modifies this`grid, gameBoard
      ensures Valid()
      ensures Count(grid) == 2
      ensures forall i, j :: 0 <= i < |grid| && 0 <= j < |grid[i]| ==>
                grid[i][j] == 0 || grid[i][j] == 2 || grid[i][j] == 4
    {
      var rows, cols := gameBoard.Length0, gameBoard.Length1;
      var tiles := GetNonEmptyTiles();
      ClearTiles(tiles);
      ZerosCount(rows, cols);
      var first := PlaceRandomValue();
      CountSet(Zeros(rows, cols), first.row, first.column, first.value);
      RoomForSecond(rows, cols, first.row, first.column, first.value);
      ghost var g1 := grid;
      var second := PlaceRandomValue();
      CountSet(g1, second.row, second.column, second.value);
    }

    /** Writes 0 at every listed tile; when the list holds every non-empty cell, the board ends up empty. */
    method ClearTiles(tiles: seq<Cell>)
      requires Valid() && Ready()
      requires forall k :: 0 <= k < |tiles| ==> 0 <= tiles[k].row < |grid| && 0 <= tiles[k].column < Cols(grid)
      requires forall i, j :: 0 <= i < |grid| && 0 <= j < Cols(grid) && grid[i][j] != 0 ==> Listed(tiles, i, j)
      modifies this`grid, gameBoard
      ensures Valid()
      ensures grid == Zeros(gameBoard.Length0, gameBoard.Length1)
    {
      var rows, cols := gameBoard.Length0, gameBoard.Length1;
      ghost var g0 := grid;
      var k := 0;
      while k < |tiles|
        invariant 0 <= k <= |tiles|
        invariant Valid()
        invariant forall i, j :: 0 <= i < rows && 0 <= j < cols ==> grid[i][j] == 0 || grid[i][j] == g0[i][j]
        invariant forall k' :: 0 <= k' < k ==> grid[tiles[k'].row][tiles[k'].column] == 0
      {
        Write(tiles[k].row, tiles[k].column, 0);
        k := k + 1;
      }
      forall i, j | 0 <= i < rows && 0 <= j < cols
        ensures grid[i][j] == 0
      {
        if g0[i][j] != 0 {
          assert Listed(tiles, i, j);
        }
      }
      GridExt(grid, Zeros(rows, cols), rows, cols);
    }

    /**
      The non-empty cells in row-major order, each with its value and a
      cleared merge flag.
     */
    method GetNonEmptyTiles() returns (tiles: seq<Cell>)
      requires Valid() && Ready()
      ensures forall k :: 0 <= k < |tiles| ==>
                0 <= tiles[k].row < |grid| && 0 <= tiles[k].column < Cols(grid)
                && tiles[k].value == grid[tiles[k].row][tiles[k].column] != 0
                && !tiles[k].recentlyMerged
      ensures forall i, j :: 0 <= i < |grid| && 0 <= j < Cols(grid) && grid[i][j] != 0 ==> Listed(tiles, i, j)
      ensures forall k1, k2 :: 0 <= k1 < k2 < |tiles| ==> CompareTo(tiles[k1], tiles[k2]) < 0
    {
      tiles := [];
      var rows, cols := gameBoard.Length0, gameBoard.Length1;
      var i := 0;
      while i < rows
        invariant 0 <= i <= rows
        invariant forall k :: 0 <= k < |tiles| ==>
                    0 <= tiles[k].row < i && 0 <= tiles[k].column < cols
                    && tiles[k].value == grid[tiles[k].row][tiles[k].column] != 0
                    && !tiles[k].recentlyMerged
        invariant forall i', j' :: 0 <= i' < i && 0 <= j' < cols && grid[i'][j'] != 0 ==> Listed(tiles, i', j')
        invariant forall k1, k2 :: 0 <= k1 < k2 < |tiles| ==> CompareTo(tiles[k1], tiles[k2]) < 0
      {
        var j := 0;
        while j < cols
          invariant 0 <= j <= cols
          invariant forall k :: 0 <= k < |tiles| ==>
                      0 <= tiles[k].row <= i && 0 <= tiles[k].column < cols
                      && (tiles[k].row == i ==> tiles[k].column < j)
                      && tiles[k].value == grid[tiles[k].row][tiles[k].column] != 0
                      && !tiles[k].recentlyMerged
          invariant forall i', j' ::
                      (0 <= i' < rows && 0 <= j' < cols && (i' < i || (i' == i && j' < j)) && grid[i'][j'] != 0)
                      ==> Listed(tiles, i', j')
          invariant forall k1, k2 :: 0 <= k1 < k2 < |tiles| ==> CompareTo(tiles[k1], tiles[k2]) < 0
        {
          if gameBoard[i, j] != 0 {
            ghost var before := tiles;
            tiles := tiles + [Cell(i, j, gameBoard[i, j], false)];
            forall i', j' | Listed(before, i', j')
              ensures Listed(tiles, i', j')
            {
              var k :| 0 <= k < |before| && before[k].row == i' && before[k].column == j';
              assert tiles[k] == before[k];
            }
            assert tiles[|tiles| - 1].row == i && tiles[|tiles| - 1].column == j;
          }
          j := j + 1;
        }
        i := i + 1;
      }
    }

    /** Copies an array board into a value. */
    method CopyBoard(board: array2<int>) returns (copy: Grid)
      requires board.Length0 > 0
      ensures Shaped(copy, board.Length0, board.Length1)
      ensures forall i, j :: 0 <= i < board.Length0 && 0 <= j < board.Length1 ==> copy[i][j] == board[i, j]
    {
      var rows, cols := board.Length0, board.Length1;
      copy := [];
      var i := 0;
      while i < rows
        invariant 0 <= i <= rows
        invariant Shaped(copy, i, cols)
        invariant forall i', j :: 0 <= i' < i && 0 <= j < cols ==> copy[i'][j] == board[i', j]
      {
        var row := [];
        var j := 0;
        while j < cols
          invariant 0 <= j <= cols && |row| == j
          invariant forall j' :: 0 <= j' < j ==> row[j'] == board[i, j']
        {
          row := row + [board[i, j]];
          j := j + 1;
        }
        copy := copy + [row];
        i := i + 1;
      }
    }

    /**
      The scan of one tile of value `v` standing at (r, c): past empty
      cells toward the wall, into an equal tile, or up to a different one.
     */
    method ScanFrom(d: Direction, r: nat, c: nat, v: int) returns (l: Landing)
      requires Valid() && gameBoard != null && r < gameBoard.Length0 && c < gameBoard.Length1
      ensures l == Scan(grid, d, r, c, v, 1)
    {
      var reach := Reach(d, gameBoard.Length0, gameBoard.Length1, r, c);
      var k := 1;
      while k <= reach
        invariant 1 <= k <= reach + 1
        invariant Scan(grid, d, r, c, v, k) == Scan(grid, d, r, c, v, 1)
        decreases reach + 1 - k
      {
        StepInBounds(d, gameBoard.Length0, gameBoard.Length1, r, c, k);
        var adjacent := gameBoard[StepRow(d, r, k), StepCol(d, c, k)];
        assert adjacent == Ahead(grid, d, r, c, k);
        if adjacent == 0 {
          k := k + 1;
        } else if adjacent == v {
          return Landing(k, 2 * v, true);
        } else {
          return Landing(k - 1, v, false);
        }
      }
      return Landing(k - 1, v, false);
    }

    /**
      Pushes the board, moves every tile toward the wall in loop order and,
      when a tile moved, places a random tile.
     */
    method Slide(dir: Direction) returns (slideOccured: bool)
      requires Valid() && Ready()
      modifies this`grid, this`undoStack, gameBoard
      ensures Valid()
      ensures undoStack == old(undoStack) + [old(grid)]
      ensures slideOccured == SlidePhase(old(grid), dir).changed
      ensures !slideOccured ==> grid == old(grid)
      ensures slideOccured ==> Spawned(SlidePhase(old(grid), dir).board, grid)
    {
      var clone := CopyBoard(gameBoard);
      GridExt(clone, grid, gameBoard.Length0, gameBoard.Length1);
      undoStack := undoStack + [clone];
      slideOccured := MoveTiles(clone, dir);
      SlideUnchanged(clone, dir);
      if slideOccured {
        SlideLeavesRoom(clone, dir);
        ghost var before := grid;
        var cell := PlaceRandomValue();
        assert before[cell.row][cell.column] == 0;
      }
    }

    /**
      The tile loops of a slide: every tile of `clone`, the board before the
      slide, in loop order, moved over the current board.
     */
    method MoveTiles(clone: Grid, dir: Direction) returns (slideOccured: bool)
      requires Valid() && Ready() && grid == clone
      modifies this`grid, gameBoard
      ensures Valid()
      ensures SlideState(grid, slideOccured) == SlidePhase(clone, dir)
    {
      var rows, cols := gameBoard.Length0, gameBoard.Length1;
      slideOccured := false;
      var a := 0;
      while a < rows
        invariant 0 <= a <= rows
        invariant Valid()
        invariant SlideState(grid, slideOccured) == Pass(clone, dir, a, 0)
      {
        var b := 0;
        while b < cols
          invariant 0 <= b <= cols
          invariant Valid()
          invariant SlideState(grid, slideOccured) == Pass(clone, dir, a, b)
        {
          slideOccured := MoveTile(clone, dir, RowAt(dir, rows, a), ColAt(dir, cols, b), slideOccured);
          b := b + 1;
        }
        a := a + 1;
      }
    }

    /**
      Moves the tile that stood at (r, c) before the slide, if there was one:
      its origin is cleared, then its landing cell receives it.
     */
    method MoveTile(clone: Grid, dir: Direction, r: nat, c: nat, changed: bool) returns (changed': bool)
      requires Valid() && Ready() && Shaped(clone, gameBoard.Length0, gameBoard.Length1)
      requires r < gameBoard.Length0 && c < gameBoard.Length1
      modifies this`grid, gameBoard
      ensures Valid()
      ensures SlideState(grid, changed') == Visit(clone, SlideState(old(grid), changed), dir, r, c)
    {
      changed' := changed;
      var v := clone[r][c];
      if v != 0 {
        var l := ScanFrom(dir, r, c, v);
        Write(r, c, 0);
        Write(StepRow(dir, r, l.dist), StepCol(dir, c, l.dist), l.value);
        changed' := changed || l.dist > 0;
      }
    }

    /**
      Pops the most recent board and makes it the game board; with nothing
      to pop, nothing changes.
     */
    method Undo() returns (outcome: Outcome)
      requires Valid()
      modifies this
      ensures Valid() && winningValue == old(winningValue)
      ensures old(undoStack) == [] ==>
                outcome == Threw(IllegalState) && undoStack == old(undoStack)
                && grid == old(grid) && gameBoard == old(gameBoard)
      ensures old(undoStack) != [] ==>
                outcome == Completed && undoStack == old(undoStack)[..|old(undoStack)| - 1]
                && grid == old(undoStack)[|old(undoStack)| - 1] && fresh(gameBoard)
    {
      if undoStack == [] {
        return Threw(IllegalState);
      }
      var top := undoStack[|undoStack| - 1];
      undoStack := undoStack[..|undoStack| - 1];
      gameBoard := new int[|top|, Cols(top)]((i, j) requires 0 <= i < |top| && 0 <= j < |top[i]| => top[i][j]);
      grid := top;
      return Completed;
    }

    /** Scans every cell for the winning value. */
    method HasWon() returns (won: bool)
      requires Valid() && Ready()
      ensures won == Won(grid, winningValue)
    {
      won := false;
      var rows, cols := gameBoard.Length0, gameBoard.Length1;
      var i := 0;
      while i < rows
        invariant 0 <= i <= rows
        invariant won == WonBefore(grid, winningValue, i, 0)
      {
        var j := 0;
        while j < cols
          invariant 0 <= j <= cols
          invariant won == WonBefore(grid, winningValue, i, j)
        {
          if gameBoard[i, j] == winningValue {
            won := true;
          }
          j := j + 1;
        }
        i := i + 1;
      }
    }

    /**
      True at the first empty cell; at an occupied cell, probes the four
      slides in turn and undoes the first that changes the board. Probes
      that change nothing leave their snapshot on the stack.
     */
    method HasMoveLeft() returns (hasMove: bool)
      requires Valid() && Ready()
      modifies this, gameBoard
      ensures Valid() && Ready()
      ensures grid == old(grid) && winningValue == old(winningValue)
      ensures gameBoard == old(gameBoard) || fresh(gameBoard)
      ensures hasMove == MoveLeft(old(grid))
      ensures Leaked(old(undoStack), undoStack, old(grid))
    {
      ghost var g0 := grid;
      MoveLeftIff(g0);
      hasMove := false;
      var rows, cols := gameBoard.Length0, gameBoard.Length1;
      var i := 0;
      while i < rows
        invariant 0 <= i <= rows
        invariant Valid() && gameBoard == old(gameBoard) && grid == g0 && winningValue == old(winningValue)
        invariant Leaked(old(undoStack), undoStack, g0)
        invariant forall i', j' :: 0 <= i' < i && 0 <= j' < cols ==> g0[i'][j'] != 0
        invariant i > 0 && cols > 0 ==> Stuck(g0)
      {
        var j := 0;
        while j < cols
          invariant 0 <= j <= cols
          invariant Valid() && gameBoard == old(gameBoard) && grid == g0 && winningValue == old(winningValue)
          invariant Leaked(old(undoStack), undoStack, g0)
          invariant forall i', j' :: 0 <= i' < rows && 0 <= j' < cols && (i' < i || (i' == i && j' < j)) ==> g0[i'][j'] != 0
          invariant (i > 0 || j > 0) ==> Stuck(g0)
        {
          if gameBoard[i, j] == 0 {
            return true;
          }
          ghost var before := undoStack;
          var moved := ProbeAll();
          LeakedTrans(old(undoStack), before, undoStack, g0);
          if moved {
            return true;
          }
          j := j + 1;
        }
        i := i + 1;
      }
      if !HasEmpty(g0) && cols == 0 {
        assert !VerticalPair(g0) && !HorizontalPair(g0);
      }
    }

    /**
      The probes of one occupied cell: up, down, left and right in turn,
      stopping at the first that changes the board.
     */
    method ProbeAll() returns (moved: bool)
      requires Valid() && Ready()
      modifies this, gameBoard
      ensures Valid() && Ready()
      ensures grid == old(grid) && winningValue == old(winningValue)
      ensures moved == !Stuck(old(grid))
      ensures moved ==> fresh(gameBoard)
      ensures !moved ==> gameBoard == old(gameBoard)
      ensures Leaked(old(undoStack), undoStack, old(grid))
    {
      ghost var g0 := grid;
      moved := Probe(UP);
      if moved { return; }
      LeakOne(old(undoStack), g0);
      ghost var s1 := undoStack;
      moved := Probe(DOWN);
      if moved { return; }
      LeakOne(s1, g0);
      LeakedTrans(old(undoStack), s1, undoStack, g0);
      ghost var s2 := undoStack;
      moved := Probe(LEFT);
      if moved { return; }
      LeakOne(s2, g0);
      LeakedTrans(old(undoStack), s2, undoStack, g0);
      ghost var s3 := undoStack;
      moved := Probe(RIGHT);
      if !moved {
        LeakOne(s3, g0);
      }
      LeakedTrans(old(undoStack), s3, undoStack, g0);
    }

    /** A slide that is undone when it changes the board. */
    method Probe(dir: Direction) returns (moved: bool)
      requires Valid() && Ready()
      modifies this, gameBoard
      ensures Valid() && Ready()
      ensures grid == old(grid) && winningValue == old(winningValue)
      ensures moved == SlidePhase(old(grid), dir).changed
      ensures moved ==> undoStack == old(undoStack) && fresh(gameBoard)
      ensures !moved ==> undoStack == old(undoStack) + [old(grid)] && gameBoard == old(gameBoard)
    {
      moved := Slide(dir);
      if moved {
        var _ := Undo();
        assert undoStack == old(undoStack);
      }
    }

    /** In progress, unless no move is left (lost) or the winning value is on the board (won). */
    method GetStatus() returns (status: GameStatus)
      requires Valid() && Ready()
      modifies this, gameBoard
      ensures Valid() && Ready()
      ensures grid == old(grid) && winningValue == old(winningValue)
      ensures status == StatusOf(old(grid), old(winningValue))
      ensures Leaked(old(undoStack), undoStack, old(grid))
    {
      status := IN_PROGRESS;
      ghost var s0 := undoStack;
      var moveLeft := HasMoveLeft();
      if moveLeft {
        status := IN_PROGRESS;
      }
      ghost var s1 := undoStack;
      moveLeft := HasMoveLeft();
      if !moveLeft {
        status := USER_LOST;
      }
      LeakedTrans(s0, s1, undoStack, old(grid));
      var won := HasWon();
      if won {
        status := USER_WON;
      }
    }
  }

  /** A slide followed by an undo restores the board and the stack, whether or not the slide moved anything. */
  method SlideThenUndo(game: NumberGame, dir: Direction) returns (slideOccured: bool)
    requires game.Valid() && game.Ready()
    modifies game, game.gameBoard
    ensures game.Valid()
    ensures game.grid == old(game.grid) && game.undoStack == old(game.undoStack)
  {
    slideOccured := game.Slide(dir);
    var outcome := game.Undo();
  }
}
