/**
  What one slide does to the board, as functions of the pre-slide board.

  The game visits the non-empty tiles of the pre-slide board in a sorted
  order that starts next to the target wall. Since no two tiles share a
  position, that order is the order of two nested loops, rows outside and
  columns inside, each running forward or backward depending on the
  direction (RowAt, ColAt). Each visited tile scans toward the wall over
  the current board: it passes empty cells, merges into the first occupied
  cell when that cell holds its own value, and otherwise stops just short
  of it. The origin is cleared and the landing cell receives the tile.

  The guard against merging twice never fires (the flag it reads belongs
  to a freshly rebuilt tile list), so merges cascade: [2,2,4,4] slid left
  becomes [8,4,0,0].
 */
module Sliding {
  import opened Board
  import opened Cells

  datatype Direction = UP | DOWN | LEFT | RIGHT

  /** Row reached from row `r` after `k` steps toward the wall. */
  function StepRow(d: Direction, r: int, k: int): int {
    match d
    case UP => r - k
    case DOWN => r + k
    case _ => r
  }

  /** Column reached from column `c` after `k` steps toward the wall. */
  function StepCol(d: Direction, c: int, k: int): int {
    match d
    case LEFT => c - k
    case RIGHT => c + k
    case _ => c
  }

  /** Number of cells between (r, c) and the wall that `d` slides toward. */
  function Reach(d: Direction, rows: nat, cols: nat, r: nat, c: nat): nat
    requires r < rows && c < cols
  {
    match d
    case UP => r
    case DOWN => rows - 1 - r
    case LEFT => c
    case RIGHT => cols - 1 - c
  }

  /** Up to `Reach` steps toward the wall stay on the board. */
  lemma StepInBounds(d: Direction, rows: nat, cols: nat, r: nat, c: nat, k: nat)
    requires r < rows && c < cols && k <= Reach(d, rows, cols, r, c)
    ensures 0 <= StepRow(d, r, k) < rows && 0 <= StepCol(d, c, k) < cols
  {
  }

  /** The value `k` cells from (r, c) toward the wall. */
  function Ahead(g: Grid, d: Direction, r: nat, c: nat, k: nat): int
    requires InBounds(g, r, c) && k <= Reach(d, |g|, Cols(g), r, c)
  {
    g[StepRow(d, r, k)][StepCol(d, c, k)]
  }

  /** Where a tile comes to rest: `dist` steps toward the wall, holding `value`. */
  datatype Landing = Landing(dist: nat, value: int, merged: bool)

  /**
    The scan of a tile of value `v` standing `k - 1` steps from (r, c),
    looking at the cell `k` steps away.
   */
  function Scan(g: Grid, d: Direction, r: nat, c: nat, v: int, k: nat): (l: Landing)
    requires InBounds(g, r, c)
    requires 1 <= k <= Reach(d, |g|, Cols(g), r, c) + 1
    decreases Reach(d, |g|, Cols(g), r, c) + 1 - k
    ensures k - 1 <= l.dist <= Reach(d, |g|, Cols(g), r, c)
    // every cell passed over is empty
    ensures forall i :: k <= i < l.dist ==> Ahead(g, d, r, c, i) == 0
    // a merge lands on the first occupied cell, which holds `v`, and doubles it
    ensures l.merged ==> k <= l.dist && Ahead(g, d, r, c, l.dist) == v && l.value == 2 * v
    // otherwise the tile keeps its value and rests on an empty cell (or where it started) ...
    ensures !l.merged ==> l.value == v
    ensures !l.merged && k <= l.dist ==> Ahead(g, d, r, c, l.dist) == 0
    // ... just short of the wall or of an occupied cell with a different value
    ensures !l.merged && l.dist < Reach(d, |g|, Cols(g), r, c) ==>
              Ahead(g, d, r, c, l.dist + 1) != 0 && Ahead(g, d, r, c, l.dist + 1) != v
  {
    if k > Reach(d, |g|, Cols(g), r, c) then Landing(k - 1, v, false)
    else if Ahead(g, d, r, c, k) == 0 then Scan(g, d, r, c, v, k + 1)
    else if Ahead(g, d, r, c, k) == v then Landing(k, 2 * v, true)
    else Landing(k - 1, v, false)
  }

  /** Row visited in step `a` of the outer loop. */
  function RowAt(d: Direction, rows: nat, a: nat): nat
    requires a < rows
  {
    if d == DOWN || d == LEFT then rows - 1 - a else a
  }

  /** Column visited in step `b` of the inner loop. */
  function ColAt(d: Direction, cols: nat, b: nat): nat
    requires b < cols
  {
    if d == DOWN || d == RIGHT then cols - 1 - b else b
  }

  datatype SlideState = SlideState(board: Grid, changed: bool)

  /**
    Visit the tile that stood at (r, c) before the slide: `g0` is the
    pre-slide board, `st.board` the current one.
   */
  function Visit(g0: Grid, st: SlideState, d: Direction, r: nat, c: nat): (st': SlideState)
    requires InBounds(g0, r, c) && Shaped(st.board, |g0|, Cols(g0))
    ensures Shaped(st'.board, |g0|, Cols(g0))
  {
    var v := g0[r][c];
    if v == 0 then st
    else
      assert Rect(st.board) && Cols(st.board) == Cols(g0);
      SlideState(Move(st.board, d, r, c, v), st.changed || Scan(st.board, d, r, c, v, 1).dist > 0)
  }

  /** The board once the tile of value `v` at (r, c) is cleared and written where its scan lands. */
  function Move(g: Grid, d: Direction, r: nat, c: nat, v: int): (h: Grid)
    requires InBounds(g, r, c)
    ensures Shaped(h, |g|, Cols(g))
  {
    var l := Scan(g, d, r, c, v, 1);
    Set(Set(g, r, c, 0), StepRow(d, r, l.dist), StepCol(d, c, l.dist), l.value)
  }

  /** The state once the loops have visited every position before (a, b). */
  function Pass(g0: Grid, d: Direction, a: nat, b: nat): (st: SlideState)
    requires Rect(g0)
    requires a <= |g0| && b <= Cols(g0) && (a == |g0| ==> b == 0)
    ensures Shaped(st.board, |g0|, Cols(g0))
    decreases a, b
  {
    if b == 0 then
      if a == 0 then SlideState(g0, false) else Pass(g0, d, a - 1, Cols(g0))
    else
      Visit(g0, Pass(g0, d, a, b - 1), d, RowAt(d, |g0|, a), ColAt(d, Cols(g0), b - 1))
  }

  /** The board after the slide phase (before any spawn) and whether a tile moved. */
  function SlidePhase(g: Grid, d: Direction): SlideState
    requires Rect(g)
  {
    Pass(g, d, |g|, 0)
  }

  // ---------------------------------------------------------------------
  // Reference definitions

  /** The tile at (r, c) has an empty or equal first neighbour toward the wall. */
  ghost predicate Movable(g: Grid, d: Direction, r: nat, c: nat)
    requires InBounds(g, r, c)
  {
    g[r][c] != 0 && Reach(d, |g|, Cols(g), r, c) >= 1
    && (Ahead(g, d, r, c, 1) == 0 || Ahead(g, d, r, c, 1) == g[r][c])
  }

  ghost predicate CanMove(g: Grid, d: Direction)
    requires Rect(g)
  {
    exists r: nat, c: nat :: r < |g| && c < Cols(g) && Movable(g, d, r, c)
  }

  /** (r, c) has been visited by the loops when they reach position (a, b). */
  ghost predicate Done(d: Direction, rows: nat, cols: nat, a: nat, b: nat, r: nat, c: nat)
    requires r < rows && c < cols
  {
    RowAt(d, rows, r) < a || (RowAt(d, rows, r) == a && ColAt(d, cols, c) < b)
  }

  /** Every row (LEFT, RIGHT) or every column (UP, DOWN) has the same sum in both grids. */
  ghost predicate SameLineSums(g: Grid, h: Grid, d: Direction)
    requires Rect(g) && Shaped(h, |g|, Cols(g))
  {
    if d == LEFT || d == RIGHT then
      forall i :: 0 <= i < |g| ==> RowSum(h[i]) == RowSum(g[i])
    else
      forall j :: 0 <= j < Cols(g) ==> ColSum(h, j) == ColSum(g, j)
  }

  // ---------------------------------------------------------------------
  // One visit

  lemma ShapedRect(g: Grid, rows: nat, cols: nat)
    requires Shaped(g, rows, cols) && rows > 0
    ensures Rect(g) && Cols(g) == cols
  {
  }

  lemma ScanMovesIffMovable(g: Grid, d: Direction, r: nat, c: nat)
    requires InBounds(g, r, c) && g[r][c] != 0
    ensures Scan(g, d, r, c, g[r][c], 1).dist > 0 <==> Movable(g, d, r, c)
  {
    var l := Scan(g, d, r, c, g[r][c], 1);
    if l.dist > 1 {
      assert Ahead(g, d, r, c, 1) == 0;
    }
  }

  /**
    Where the tile at (r, c) lands, what it leaves there and what it finds:
    the landing value exceeds what the landing cell holds once the origin is
    cleared by exactly the tile's value, that cell was occupied exactly when
    the tile merged, and a tile that moved without merging found it empty.
   */
  lemma LandingGain(g: Grid, d: Direction, r: nat, c: nat)
    requires InBounds(g, r, c) && g[r][c] != 0
    ensures var l := Scan(g, d, r, c, g[r][c], 1);
            var lr, lc := StepRow(d, r, l.dist), StepCol(d, c, l.dist);
            var cleared := Set(g, r, c, 0);
            && InBounds(g, lr, lc)
            && l.value - cleared[lr][lc] == g[r][c]
            && (cleared[lr][lc] != 0 <==> l.merged)
            && (l.dist > 0 && !l.merged ==> g[lr][lc] == 0)
            && (l.dist == 0 ==> lr == r && lc == c)
  {
    var l := Scan(g, d, r, c, g[r][c], 1);
    if l.dist > 0 {
      assert g[StepRow(d, r, l.dist)][StepCol(d, c, l.dist)] == Ahead(g, d, r, c, l.dist);
    }
  }

  /** Moving the tile changes nothing but its origin and its landing cell. */
  lemma MoveFrame(g: Grid, d: Direction, r: nat, c: nat)
    requires InBounds(g, r, c) && g[r][c] != 0
    ensures var l := Scan(g, d, r, c, g[r][c], 1);
            var lr, lc := StepRow(d, r, l.dist), StepCol(d, c, l.dist);
            forall i, j :: 0 <= i < |g| && 0 <= j < Cols(g) && (i != r || j != c) && (i != lr || j != lc) ==>
              Move(g, d, r, c, g[r][c])[i][j] == g[i][j]
  {
    LandingGain(g, d, r, c);
  }

  lemma MoveSum(g: Grid, d: Direction, r: nat, c: nat)
    requires InBounds(g, r, c) && g[r][c] != 0
    ensures Sum(Move(g, d, r, c, g[r][c])) == Sum(g)
  {
    var l := Scan(g, d, r, c, g[r][c], 1);
    var lr, lc := StepRow(d, r, l.dist), StepCol(d, c, l.dist);
    LandingGain(g, d, r, c);
    var cleared := Set(g, r, c, 0);
    SumSet(g, r, c, 0);
    SumSet(cleared, lr, lc, l.value);
  }

  lemma MoveCount(g: Grid, d: Direction, r: nat, c: nat)
    requires InBounds(g, r, c) && g[r][c] != 0
    ensures Count(Move(g, d, r, c, g[r][c])) == Count(g) - (if Scan(g, d, r, c, g[r][c], 1).merged then 1 else 0)
  {
    var l := Scan(g, d, r, c, g[r][c], 1);
    var lr, lc := StepRow(d, r, l.dist), StepCol(d, c, l.dist);
    LandingGain(g, d, r, c);
    var cleared := Set(g, r, c, 0);
    CountSet(g, r, c, 0);
    CountSet(cleared, lr, lc, l.value);
  }

  /** A horizontal move keeps every row sum. */
  lemma MoveRowSums(g: Grid, d: Direction, r: nat, c: nat)
    requires InBounds(g, r, c) && g[r][c] != 0 && (d == LEFT || d == RIGHT)
    ensures forall i :: 0 <= i < |g| ==> RowSum(Move(g, d, r, c, g[r][c])[i]) == RowSum(g[i])
  {
    var l := Scan(g, d, r, c, g[r][c], 1);
    var lc := StepCol(d, c, l.dist);
    LandingGain(g, d, r, c);
    var cleared := Set(g, r, c, 0);
    var h := Move(g, d, r, c, g[r][c]);
    assert cleared[r] == g[r][c := 0];
    assert h[r] == cleared[r][lc := l.value];
    RowSumUpdate(g[r], c, 0);
    RowSumUpdate(cleared[r], lc, l.value);
  }

  /** A vertical move keeps every column sum. */
  lemma MoveColSums(g: Grid, d: Direction, r: nat, c: nat)
    requires InBounds(g, r, c) && g[r][c] != 0 && (d == UP || d == DOWN)
    ensures forall j :: 0 <= j < Cols(g) ==> ColSum(Move(g, d, r, c, g[r][c]), j) == ColSum(g, j)
  {
    var l := Scan(g, d, r, c, g[r][c], 1);
    var lr := StepRow(d, r, l.dist);
    LandingGain(g, d, r, c);
    var cleared := Set(g, r, c, 0);
    forall j | 0 <= j < Cols(g) ensures ColSum(Move(g, d, r, c, g[r][c]), j) == ColSum(g, j) {
      ColSumSet(g, r, c, 0, j);
      ColSumSet(cleared, lr, c, l.value, j);
    }
  }

  lemma MoveLineSums(g: Grid, d: Direction, r: nat, c: nat)
    requires InBounds(g, r, c) && g[r][c] != 0
    ensures SameLineSums(g, Move(g, d, r, c, g[r][c]), d)
  {
    if d == LEFT || d == RIGHT {
      MoveRowSums(g, d, r, c);
    } else {
      MoveColSums(g, d, r, c);
    }
  }

  // ---------------------------------------------------------------------
  // The loop order

  lemma RowAtInvolution(d: Direction, rows: nat, a: nat)
    requires a < rows
    ensures RowAt(d, rows, RowAt(d, rows, a)) == a
  {
  }

  /** The tile visited at (a, b) is not yet done there, and is done one step later. */
  lemma VisitedCell(d: Direction, rows: nat, cols: nat, a: nat, b: nat)
    requires a < rows && b < cols
    ensures var r, c := RowAt(d, rows, a), ColAt(d, cols, b);
            !Done(d, rows, cols, a, b, r, c) && Done(d, rows, cols, a, b + 1, r, c)
  {
  }

  /** One step of the inner loop adds exactly the visited cell to those done. */
  lemma DoneStep(d: Direction, rows: nat, cols: nat, a: nat, b: nat, r: nat, c: nat)
    requires a < rows && b < cols && r < rows && c < cols
    ensures Done(d, rows, cols, a, b + 1, r, c) <==>
            Done(d, rows, cols, a, b, r, c) || (r == RowAt(d, rows, a) && c == ColAt(d, cols, b))
  {
    RowAtInvolution(d, rows, a);
  }

  /** Every cell between a visited tile and the wall has been visited before it. */
  lemma AheadIsDone(d: Direction, rows: nat, cols: nat, a: nat, b: nat, k: nat)
    requires a < rows && b < cols
    requires 1 <= k <= Reach(d, rows, cols, RowAt(d, rows, a), ColAt(d, cols, b))
    ensures var r, c := RowAt(d, rows, a), ColAt(d, cols, b);
            Done(d, rows, cols, a, b, StepRow(d, r, k), StepCol(d, c, k))
  {
  }

  /** Finishing a row of the loops is the same as starting the next one. */
  lemma DoneRowEnd(d: Direction, rows: nat, cols: nat, a: nat, r: nat, c: nat)
    requires 0 < a <= rows && r < rows && c < cols
    ensures Done(d, rows, cols, a, 0, r, c) <==> Done(d, rows, cols, a - 1, cols, r, c)
  {
  }

  // ---------------------------------------------------------------------
  // The whole pass

  /** Cells the loops have not reached yet still hold their pre-slide values. */
  lemma {:induction false} PassPending(g0: Grid, d: Direction, a: nat, b: nat)
    requires Rect(g0)
    requires a <= |g0| && b <= Cols(g0) && (a == |g0| ==> b == 0)
    ensures Pending(g0, d, a, b)
  {
    if b == 0 {
      if a > 0 {
        PassPending(g0, d, a - 1, Cols(g0));
        PassPendingRowEnd(g0, d, a);
      }
    } else {
      PassPending(g0, d, a, b - 1);
      PassPendingStep(g0, d, a, b);
    }
  }

  /** Every cell not done after (a, b) still holds its value in `g0`. */
  ghost predicate Pending(g0: Grid, d: Direction, a: nat, b: nat)
    requires Rect(g0)
    requires a <= |g0| && b <= Cols(g0) && (a == |g0| ==> b == 0)
  {
    forall r: nat, c: nat :: r < |g0| && c < Cols(g0) && !Done(d, |g0|, Cols(g0), a, b, r, c) ==>
      Pass(g0, d, a, b).board[r][c] == g0[r][c]
  }

  /** The row-end step of PassPending. */
  lemma PassPendingRowEnd(g0: Grid, d: Direction, a: nat)
    requires Rect(g0)
    requires 0 < a <= |g0|
    requires Pending(g0, d, a - 1, Cols(g0))
    ensures Pending(g0, d, a, 0)
  {
    var rows, cols := |g0|, Cols(g0);
    forall r: nat, c: nat | r < rows && c < cols && !Done(d, rows, cols, a, 0, r, c)
      ensures Pass(g0, d, a, 0).board[r][c] == g0[r][c]
    {
      DoneRowEnd(d, rows, cols, a, r, c);
    }
  }

  /** The inner-loop step of PassPending. */
  lemma PassPendingStep(g0: Grid, d: Direction, a: nat, b: nat)
    requires Rect(g0)
    requires a < |g0| && 0 < b <= Cols(g0)
    requires Pending(g0, d, a, b - 1)
    ensures Pending(g0, d, a, b)
  {
    var rows, cols := |g0|, Cols(g0);
    var g := Pass(g0, d, a, b - 1).board;
    var R, C := RowAt(d, rows, a), ColAt(d, cols, b - 1);
    ShapedRect(g, rows, cols);
    if g0[R][C] != 0 {
      VisitedCell(d, rows, cols, a, b - 1);
      assert g[R][C] == g0[R][C];
      MoveFrame(g, d, R, C);
      var l := Scan(g, d, R, C, g0[R][C], 1);
      var lr, lc := StepRow(d, R, l.dist), StepCol(d, C, l.dist);
      assert Pass(g0, d, a, b).board == Move(g, d, R, C, g0[R][C]);
      forall r: nat, c: nat | r < rows && c < cols && !Done(d, rows, cols, a, b, r, c)
        ensures Pass(g0, d, a, b).board[r][c] == g0[r][c]
      {
        DoneStep(d, rows, cols, a, b - 1, r, c);
        if l.dist > 0 {
          AheadIsDone(d, rows, cols, a, b - 1, l.dist);
          assert r != lr || c != lc;
        }
      }
    }
  }

  /** The pass keeps the total, every line sum in its direction, and never adds an occupied cell. */
  lemma {:induction false} PassConserves(g0: Grid, d: Direction, a: nat, b: nat)
    requires Rect(g0)
    requires a <= |g0| && b <= Cols(g0) && (a == |g0| ==> b == 0)
    ensures Conserved(g0, Pass(g0, d, a, b).board, d)
  {
    if b == 0 {
      if a > 0 { PassConserves(g0, d, a - 1, Cols(g0)); }
    } else {
      PassConserves(g0, d, a, b - 1);
      PassConservesStep(g0, d, a, b);
    }
  }

  /** Total, line sums in direction `d` and no more occupied cells. */
  ghost predicate Conserved(g0: Grid, h: Grid, d: Direction)
    requires Rect(g0) && Shaped(h, |g0|, Cols(g0))
  {
    Sum(h) == Sum(g0) && SameLineSums(g0, h, d) && Count(h) <= Count(g0)
  }

  /** The inner-loop step of PassConserves. */
  lemma PassConservesStep(g0: Grid, d: Direction, a: nat, b: nat)
    requires Rect(g0)
    requires a < |g0| && 0 < b <= Cols(g0)
    requires Conserved(g0, Pass(g0, d, a, b - 1).board, d)
    ensures Conserved(g0, Pass(g0, d, a, b).board, d)
  {
    var rows, cols := |g0|, Cols(g0);
    var g := Pass(g0, d, a, b - 1).board;
    var R, C := RowAt(d, rows, a), ColAt(d, cols, b - 1);
    if g0[R][C] != 0 {
      PassPending(g0, d, a, b - 1);
      VisitedCell(d, rows, cols, a, b - 1);
      VisitConserves(g0, g, d, R, C);
    }
  }

  /** Moving a tile that has not moved yet keeps what Conserved states. */
  lemma VisitConserves(g0: Grid, g: Grid, d: Direction, r: nat, c: nat)
    requires Rect(g0) && InBounds(g0, r, c) && Shaped(g, |g0|, Cols(g0))
    requires Conserved(g0, g, d) && g[r][c] == g0[r][c] != 0
    ensures Conserved(g0, Move(g, d, r, c, g0[r][c]), d)
  {
    var rows, cols := |g0|, Cols(g0);
    ShapedRect(g, rows, cols);
    var h := Move(g, d, r, c, g0[r][c]);
    MoveSum(g, d, r, c);
    MoveCount(g, d, r, c);
    MoveLineSums(g, d, r, c);
    if d == LEFT || d == RIGHT {
      assert forall i :: 0 <= i < rows ==> RowSum(h[i]) == RowSum(g[i]) == RowSum(g0[i]);
    } else {
      assert forall j :: 0 <= j < cols ==> ColSum(h, j) == ColSum(g, j) == ColSum(g0, j);
    }
  }

  /** Some cell the loops have visited by (a, b) held a movable tile before the slide. */
  ghost predicate MovableDone(g0: Grid, d: Direction, a: nat, b: nat)
    requires Rect(g0)
  {
    exists r: nat, c: nat :: r < |g0| && c < Cols(g0) && Done(d, |g0|, Cols(g0), a, b, r, c) && Movable(g0, d, r, c)
  }

  lemma MovableDoneRowEnd(g0: Grid, d: Direction, a: nat)
    requires Rect(g0) && 0 < a <= |g0|
    ensures MovableDone(g0, d, a, 0) <==> MovableDone(g0, d, a - 1, Cols(g0))
  {
    forall r: nat, c: nat | r < |g0| && c < Cols(g0)
      ensures Done(d, |g0|, Cols(g0), a, 0, r, c) <==> Done(d, |g0|, Cols(g0), a - 1, Cols(g0), r, c)
    {
      DoneRowEnd(d, |g0|, Cols(g0), a, r, c);
    }
  }

  lemma MovableDoneStep(g0: Grid, d: Direction, a: nat, b: nat)
    requires Rect(g0) && a < |g0| && b < Cols(g0)
    ensures MovableDone(g0, d, a, b + 1) <==>
            MovableDone(g0, d, a, b) || Movable(g0, d, RowAt(d, |g0|, a), ColAt(d, Cols(g0), b))
  {
    forall r: nat, c: nat | r < |g0| && c < Cols(g0)
      ensures Done(d, |g0|, Cols(g0), a, b + 1, r, c) <==>
              Done(d, |g0|, Cols(g0), a, b, r, c) || (r == RowAt(d, |g0|, a) && c == ColAt(d, Cols(g0), b))
    {
      DoneStep(d, |g0|, Cols(g0), a, b, r, c);
    }
  }

  /** What PassChanged states about one state of the pass. */
  ghost predicate ChangeTracked(g0: Grid, st: SlideState)
    requires Rect(g0)
  {
    (!st.changed ==> st.board == g0) && (st.changed ==> Count(st.board) < CellCount(g0))
  }

  /**
    Until the pass reports a change the board is untouched, and once it has,
    fewer cells are occupied than exist.
   */
  lemma {:induction false} PassTracked(g0: Grid, d: Direction, a: nat, b: nat)
    requires Rect(g0)
    requires a <= |g0| && b <= Cols(g0) && (a == |g0| ==> b == 0)
    ensures ChangeTracked(g0, Pass(g0, d, a, b))
  {
    if b == 0 {
      if a > 0 {
        PassTracked(g0, d, a - 1, Cols(g0));
      }
    } else {
      PassTracked(g0, d, a, b - 1);
      PassChangedStep(g0, d, a, b);
    }
  }

  /** The pass reports a change exactly when some visited tile was movable on the pre-slide board. */
  lemma {:induction false} PassChanged(g0: Grid, d: Direction, a: nat, b: nat)
    requires Rect(g0)
    requires a <= |g0| && b <= Cols(g0) && (a == |g0| ==> b == 0)
    ensures Pass(g0, d, a, b).changed <==> MovableDone(g0, d, a, b)
  {
    if b == 0 {
      if a == 0 {
        PassChangedStart(g0, d);
      } else {
        PassChanged(g0, d, a - 1, Cols(g0));
        PassChangedRowEnd(g0, d, a);
      }
    } else {
      PassChanged(g0, d, a, b - 1);
      PassTracked(g0, d, a, b - 1);
      PassChangedInner(g0, d, a, b);
    }
  }

  lemma PassChangedStart(g0: Grid, d: Direction)
    requires Rect(g0)
    ensures !Pass(g0, d, 0, 0).changed && !MovableDone(g0, d, 0, 0)
  {
  }

  lemma PassChangedRowEnd(g0: Grid, d: Direction, a: nat)
    requires Rect(g0) && 0 < a <= |g0|
    requires Pass(g0, d, a - 1, Cols(g0)).changed <==> MovableDone(g0, d, a - 1, Cols(g0))
    ensures Pass(g0, d, a, 0).changed <==> MovableDone(g0, d, a, 0)
  {
    MovableDoneRowEnd(g0, d, a);
  }

  lemma PassChangedInner(g0: Grid, d: Direction, a: nat, b: nat)
    requires Rect(g0) && a < |g0| && 0 < b <= Cols(g0)
    requires ChangeTracked(g0, Pass(g0, d, a, b - 1))
    requires Pass(g0, d, a, b - 1).changed <==> MovableDone(g0, d, a, b - 1)
    ensures Pass(g0, d, a, b).changed <==> MovableDone(g0, d, a, b)
  {
    MovableDoneStep(g0, d, a, b - 1);
    PassChangedStep(g0, d, a, b);
  }

  /** The inner-loop step of PassChanged. */
  lemma PassChangedStep(g0: Grid, d: Direction, a: nat, b: nat)
    requires Rect(g0)
    requires a < |g0| && 0 < b <= Cols(g0)
    requires ChangeTracked(g0, Pass(g0, d, a, b - 1))
    ensures ChangeTracked(g0, Pass(g0, d, a, b))
    ensures Pass(g0, d, a, b).changed <==>
            Pass(g0, d, a, b - 1).changed || Movable(g0, d, RowAt(d, |g0|, a), ColAt(d, Cols(g0), b - 1))
  {
    var rows, cols := |g0|, Cols(g0);
    var st := Pass(g0, d, a, b - 1);
    var R, C := RowAt(d, rows, a), ColAt(d, cols, b - 1);
    PassPending(g0, d, a, b - 1);
    VisitedCell(d, rows, cols, a, b - 1);
    VisitTracked(g0, st, d, R, C);
  }

  /** Visiting a tile that has not moved yet keeps ChangeTracked and reports whether it could move. */
  lemma VisitTracked(g0: Grid, st: SlideState, d: Direction, r: nat, c: nat)
    requires Rect(g0) && InBounds(g0, r, c) && Shaped(st.board, |g0|, Cols(g0))
    requires ChangeTracked(g0, st) && st.board[r][c] == g0[r][c]
    ensures ChangeTracked(g0, Visit(g0, st, d, r, c))
    ensures Visit(g0, st, d, r, c).changed <==> st.changed || Movable(g0, d, r, c)
  {
    if g0[r][c] != 0 {
      if st.changed {
        VisitAfterChange(g0, st, d, r, c);
      } else {
        VisitFirstChange(g0, d, r, c);
      }
    }
  }

  /** Once a change was reported, a visit cannot occupy more cells. */
  lemma VisitAfterChange(g0: Grid, st: SlideState, d: Direction, r: nat, c: nat)
    requires Rect(g0) && InBounds(g0, r, c) && Shaped(st.board, |g0|, Cols(g0))
    requires st.changed && Count(st.board) < CellCount(g0)
    requires st.board[r][c] == g0[r][c] != 0
    ensures Visit(g0, st, d, r, c).changed
    ensures Count(Visit(g0, st, d, r, c).board) < CellCount(g0)
  {
    ShapedRect(st.board, |g0|, Cols(g0));
    MoveCount(st.board, d, r, c);
  }

  /** The first visit on an untouched board changes it exactly when the tile is movable. */
  lemma VisitFirstChange(g0: Grid, d: Direction, r: nat, c: nat)
    requires Rect(g0) && InBounds(g0, r, c) && g0[r][c] != 0
    ensures ChangeTracked(g0, Visit(g0, SlideState(g0, false), d, r, c))
    ensures Visit(g0, SlideState(g0, false), d, r, c).changed <==> Movable(g0, d, r, c)
  {
    var l := Scan(g0, d, r, c, g0[r][c], 1);
    var h := Move(g0, d, r, c, g0[r][c]);
    ScanMovesIffMovable(g0, d, r, c);
    LandingGain(g0, d, r, c);
    MoveCount(g0, d, r, c);
    CountBound(g0);
    if l.dist == 0 {
      SetBack(g0, r, c, 0);
      assert h == g0;
    } else if !l.merged {
      var lr, lc := StepRow(d, r, l.dist), StepCol(d, c, l.dist);
      assert g0[lr][lc] == 0;
      assert HasEmpty(g0);
    }
  }

  // ---------------------------------------------------------------------
  // The whole slide

  /** The slide phase reports a change exactly when some tile can move. */
  lemma SlideChangedIffCanMove(g: Grid, d: Direction)
    requires Rect(g)
    ensures SlidePhase(g, d).changed <==> CanMove(g, d)
  {
    PassChanged(g, d, |g|, 0);
    forall r: nat, c: nat | r < |g| && c < Cols(g) && Movable(g, d, r, c)
      ensures Done(d, |g|, Cols(g), |g|, 0, r, c)
    {
    }
  }

  /** A slide that reports no change leaves every cell as it was. */
  lemma SlideUnchanged(g: Grid, d: Direction)
    requires Rect(g)
    ensures !SlidePhase(g, d).changed ==> SlidePhase(g, d).board == g
  {
    PassTracked(g, d, |g|, 0);
  }

  /**
    The slide phase keeps the sum of all tile values and the sum of each row
    (LEFT, RIGHT) or column (UP, DOWN), and never adds an occupied cell.
   */
  lemma SlideConserves(g: Grid, d: Direction)
    requires Rect(g)
    ensures Sum(SlidePhase(g, d).board) == Sum(g)
    ensures SameLineSums(g, SlidePhase(g, d).board, d)
    ensures Count(SlidePhase(g, d).board) <= Count(g)
  {
    PassConserves(g, d, |g|, 0);
  }

  lemma {:induction false} ShapedCellCount(g: Grid, h: Grid, rows: nat, cols: nat)
    requires Shaped(g, rows, cols) && Shaped(h, rows, cols)
    ensures CellCount(g) == CellCount(h)
  {
    if rows > 0 { ShapedCellCount(g[1..], h[1..], rows - 1, cols); }
  }

  /** After a slide that changed something there is an empty cell for the new tile. */
  lemma SlideLeavesRoom(g: Grid, d: Direction)
    requires Rect(g)
    ensures SlidePhase(g, d).changed ==> HasEmpty(SlidePhase(g, d).board)
  {
    var h := SlidePhase(g, d).board;
    PassTracked(g, d, |g|, 0);
    ShapedCellCount(g, h, |g|, Cols(g));
    CountBound(h);
  }

  // ---------------------------------------------------------------------
  // The sort the game uses, and why loop order replaces it

  /** The comparator each direction sorts its tile list with. */
  function SlideComparator(d: Direction, x: Cell, y: Cell): int {
    match d
    case UP =>
      if x.row < y.row then -1 else if x.row > y.row then 1
      else if x.column < y.column then -1 else if x.column > y.column then 1
      else x.value - y.value
    case DOWN =>
      if x.row > y.row then -1 else if x.row < y.row then 1
      else if x.column > y.column then -1 else if x.column < y.column then 1
      else x.value - y.value
    case RIGHT =>
      if x.row < y.row then -1 else if x.row > y.row then 1
      else if x.column > y.column then -1 else if x.column < y.column then 1
      else x.value - y.value
    case LEFT =>
      if x.row > y.row then -1 else if x.row < y.row then 1
      else if x.column < y.column then -1 else if x.column > y.column then 1
      else x.value - y.value
  }

  /** Sliding up sorts with the tiles' own ordering. */
  lemma UpComparatorIsCompareTo(x: Cell, y: Cell)
    ensures SlideComparator(UP, x, y) == CompareTo(x, y)
  {
  }

  /**
    A tile the loops reach earlier sorts strictly before one they reach
    later, and the later one strictly after it, whatever the values: sorting
    and then iterating the list visits the tiles in loop order.
   */
  lemma LoopOrderIsSortOrder(d: Direction, rows: nat, cols: nat, a1: nat, b1: nat, a2: nat, b2: nat,
                             v1: int, v2: int)
    requires a1 < rows && a2 < rows && b1 < cols && b2 < cols
    requires a1 < a2 || (a1 == a2 && b1 < b2)
    ensures SlideComparator(d, Cell(RowAt(d, rows, a1), ColAt(d, cols, b1), v1, false),
                               Cell(RowAt(d, rows, a2), ColAt(d, cols, b2), v2, false)) < 0
    ensures SlideComparator(d, Cell(RowAt(d, rows, a2), ColAt(d, cols, b2), v2, false),
                               Cell(RowAt(d, rows, a1), ColAt(d, cols, b1), v1, false)) > 0
  {
  }
}
