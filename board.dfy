/**
  Values of the game board: a grid of tile values indexed `g[row][column]`,
  where 0 is an empty cell. Snapshots on the undo stack are grids too.
  Sums and counts of tiles, and the power-of-two test used to check the
  winning value.
 */
module Board {

  type Grid = seq<seq<int>>

  /** Number of columns, read off the first row as the game does. */
  function Cols(g: Grid): nat {
    if |g| == 0 then 0 else |g[0]|
  }

  /** Every row has as many columns as the first one. */
  ghost predicate Rect(g: Grid) {
    forall i :: 0 <= i < |g| ==> |g[i]| == Cols(g)
  }

  /** `g` is a `rows` by `cols` grid (also meaningful when `rows` is 0). */
  ghost predicate Shaped(g: Grid, rows: nat, cols: nat) {
    |g| == rows && forall i :: 0 <= i < |g| ==> |g[i]| == cols
  }

  ghost predicate InBounds(g: Grid, r: int, c: int) {
    Rect(g) && 0 <= r < |g| && 0 <= c < Cols(g)
  }

  /** `g` with the cell at (r, c) replaced by `x`. */
  function Set(g: Grid, r: int, c: int, x: int): (h: Grid)
    requires InBounds(g, r, c)
    ensures Rect(h) && |h| == |g| && Cols(h) == Cols(g)
    ensures forall i, j :: 0 <= i < |g| && 0 <= j < Cols(g) ==>
              h[i][j] == if i == r && j == c then x else g[i][j]
  {
    g[r := g[r][c := x]]
  }

  /** Overwriting a cell and then writing back its old value restores the grid. */
  lemma SetBack(g: Grid, r: int, c: int, x: int)
    requires InBounds(g, r, c)
    ensures Set(Set(g, r, c, x), r, c, g[r][c]) == g
  {
    assert Set(g, r, c, x)[r][c := g[r][c]] == g[r];
  }

  /** Two grids of one shape that agree on every cell are equal. */
  lemma GridExt(g: Grid, h: Grid, rows: nat, cols: nat)
    requires Shaped(g, rows, cols) && Shaped(h, rows, cols)
    requires forall i, j :: 0 <= i < rows && 0 <= j < cols ==> g[i][j] == h[i][j]
    ensures g == h
  {
    forall i | 0 <= i < rows
      ensures g[i] == h[i]
    {
    }
  }

  /** The all-empty grid of the given size. */
  function Zeros(rows: nat, cols: nat): (g: Grid)
    ensures Shaped(g, rows, cols)
    ensures forall i, j :: 0 <= i < rows && 0 <= j < cols ==> g[i][j] == 0
  {
    seq(rows, i => seq(cols, j => 0))
  }

  ghost predicate HasEmpty(g: Grid) {
    exists i, j :: 0 <= i < |g| && 0 <= j < |g[i]| && g[i][j] == 0
  }

  // ---------------------------------------------------------------------
  // Sums of tile values

  function RowSum(s: seq<int>): int {
    if s == [] then 0 else s[0] + RowSum(s[1..])
  }

  function Sum(g: Grid): int {
    if g == [] then 0 else RowSum(g[0]) + Sum(g[1..])
  }

  /** Sum of column `j` over all rows. */
  function ColSum(g: Grid, j: nat): int
    requires forall i :: 0 <= i < |g| ==> j < |g[i]|
  {
    if g == [] then 0 else g[0][j] + ColSum(g[1..], j)
  }

  lemma {:induction false} RowSumUpdate(s: seq<int>, k: nat, x: int)
    requires k < |s|
    ensures RowSum(s[k := x]) == RowSum(s) - s[k] + x
  {
    if k > 0 {
      assert s[k := x][1..] == s[1..][k - 1 := x];
      RowSumUpdate(s[1..], k - 1, x);
    }
  }

  lemma {:induction false} SumUpdate(g: Grid, r: nat, row: seq<int>)
    requires r < |g|
    ensures Sum(g[r := row]) == Sum(g) - RowSum(g[r]) + RowSum(row)
  {
    if r > 0 {
      assert g[r := row][1..] == g[1..][r - 1 := row];
      SumUpdate(g[1..], r - 1, row);
    }
  }

  /** Writing `x` at (r, c) changes the total by `x - g[r][c]`. */
  lemma SumSet(g: Grid, r: int, c: int, x: int)
    requires InBounds(g, r, c)
    ensures Sum(Set(g, r, c, x)) == Sum(g) - g[r][c] + x
  {
    RowSumUpdate(g[r], c, x);
    SumUpdate(g, r, g[r][c := x]);
  }

  lemma {:induction false} ColSumSet(g: Grid, r: int, c: int, x: int, j: nat)
    requires InBounds(g, r, c) && j < Cols(g)
    ensures ColSum(Set(g, r, c, x), j) == ColSum(g, j) + (if j == c then x - g[r][c] else 0)
  {
    var h := Set(g, r, c, x);
    if r > 0 {
      assert h[1..] == g[1..][r - 1 := g[r][c := x]];
      if |g| > 1 {
        assert Cols(g[1..]) == Cols(g);
        ColSumSet(g[1..], r - 1, c, x, j);
      }
    } else {
      assert h[1..] == g[1..];
    }
  }

  // ---------------------------------------------------------------------
  // Counts of occupied and of all cells

  function RowCount(s: seq<int>): nat {
    if s == [] then 0 else (if s[0] != 0 then 1 else 0) + RowCount(s[1..])
  }

  /** Number of non-empty cells. */
  function Count(g: Grid): nat {
    if g == [] then 0 else RowCount(g[0]) + Count(g[1..])
  }

  /** Number of cells, occupied or not. */
  function CellCount(g: Grid): nat {
    if g == [] then 0 else |g[0]| + CellCount(g[1..])
  }

  lemma {:induction false} RowCountUpdate(s: seq<int>, k: nat, x: int)
    requires k < |s|
    ensures RowCount(s[k := x]) == RowCount(s) - (if s[k] != 0 then 1 else 0) + (if x != 0 then 1 else 0)
  {
    if k > 0 {
      assert s[k := x][1..] == s[1..][k - 1 := x];
      RowCountUpdate(s[1..], k - 1, x);
    }
  }

  lemma {:induction false} CountUpdate(g: Grid, r: nat, row: seq<int>)
    requires r < |g|
    ensures Count(g[r := row]) == Count(g) - RowCount(g[r]) + RowCount(row)
    ensures |row| == |g[r]| ==> CellCount(g[r := row]) == CellCount(g)
  {
    if r > 0 {
      assert g[r := row][1..] == g[1..][r - 1 := row];
      CountUpdate(g[1..], r - 1, row);
    }
  }

  /** Writing `x` at (r, c) adds one occupied cell, removes one, or neither. */
  lemma CountSet(g: Grid, r: int, c: int, x: int)
    requires InBounds(g, r, c)
    ensures Count(Set(g, r, c, x)) == Count(g) - (if g[r][c] != 0 then 1 else 0) + (if x != 0 then 1 else 0)
    ensures CellCount(Set(g, r, c, x)) == CellCount(g)
  {
    RowCountUpdate(g[r], c, x);
    CountUpdate(g, r, g[r][c := x]);
  }

  lemma {:induction false} RowCountBound(s: seq<int>)
    ensures RowCount(s) <= |s|
    ensures RowCount(s) < |s| <==> exists j :: 0 <= j < |s| && s[j] == 0
  {
    if s != [] {
      RowCountBound(s[1..]);
      if exists j :: 0 <= j < |s[1..]| && s[1..][j] == 0 {
        var j :| 0 <= j < |s[1..]| && s[1..][j] == 0;
        assert s[j + 1] == 0;
      }
      if exists j :: 0 <= j < |s| && s[j] == 0 {
        var j :| 0 <= j < |s| && s[j] == 0;
        if j > 0 { assert s[1..][j - 1] == 0; }
      }
    }
  }

  /** There is an empty cell exactly when fewer cells are occupied than exist. */
  lemma {:induction false} CountBound(g: Grid)
    ensures Count(g) <= CellCount(g)
    ensures Count(g) < CellCount(g) <==> HasEmpty(g)
  {
    if g != [] {
      RowCountBound(g[0]);
      CountBound(g[1..]);
      if HasEmpty(g[1..]) {
        var i, j :| 0 <= i < |g[1..]| && 0 <= j < |g[1..][i]| && g[1..][i][j] == 0;
        assert g[i + 1][j] == 0;
      }
      if HasEmpty(g) {
        var i, j :| 0 <= i < |g| && 0 <= j < |g[i]| && g[i][j] == 0;
        if i > 0 { assert g[1..][i - 1][j] == 0; }
      }
    }
  }

  lemma {:induction false} ZerosCount(rows: nat, cols: nat)
    ensures Count(Zeros(rows, cols)) == 0
  {
    var g := Zeros(rows, cols);
    if rows > 0 {
      assert g[1..] == Zeros(rows - 1, cols);
      ZerosCount(rows - 1, cols);
      ZeroRowCount(g[0]);
    }
  }

  lemma {:induction false} ZeroRowCount(s: seq<int>)
    requires forall j :: 0 <= j < |s| ==> s[j] == 0
    ensures RowCount(s) == 0
  {
    if s != [] { ZeroRowCount(s[1..]); }
  }

  // ---------------------------------------------------------------------
  // Powers of two

  function Pow2(k: nat): (p: nat)
    ensures p >= 1
  {
    if k == 0 then 1 else 2 * Pow2(k - 1)
  }

  /** The bitwise `a & b` of two non-negative numbers, bit by bit from the low end. */
  function BitAnd(a: nat, b: nat): nat {
    if a == 0 || b == 0 then 0
    else 2 * BitAnd(a / 2, b / 2) + (if a % 2 == 1 && b % 2 == 1 then 1 else 0)
  }

  /**
    The game's test: positive and `n & (n - 1) == 0`. For a positive Java
    `int` the bitwise and of non-negative operands is the one computed here.
   */
  predicate IsPowerOf2(n: int) {
    n > 0 && BitAnd(n, n - 1) == 0
  }

  /** Floor of the base-2 logarithm. */
  function Log2(n: nat): nat
    requires n >= 1
  {
    if n == 1 then 0 else 1 + Log2(n / 2)
  }

  lemma {:induction false} BitAndSelf(a: nat)
    ensures BitAnd(a, a) == a
  {
    if a != 0 { BitAndSelf(a / 2); }
  }

  /** The bit trick accepts exactly the numbers 2^k. */
  lemma {:induction false} IsPowerOf2Exactly(n: int)
    ensures IsPowerOf2(n) <==> n >= 1 && Pow2(Log2(n)) == n
  {
    if n > 1 {
      if n % 2 == 0 {
        IsPowerOf2Exactly(n / 2);
        EvenStep(n, n / 2);
      } else {
        OddStep(n);
      }
    }
  }

  /** For even n > 1 the test and the power both reduce to n / 2. */
  lemma EvenStep(n: nat, h: nat)
    requires h >= 1 && n == 2 * h
    ensures IsPowerOf2(n) == IsPowerOf2(h)
    ensures Pow2(Log2(n)) == 2 * Pow2(Log2(h))
  {
    EvenBitAnd(n, h);
    HalfLog(n, h);
  }

  lemma HalfLog(n: nat, h: nat)
    requires n > 1 && h == n / 2
    ensures Log2(n) == 1 + Log2(h)
    ensures Pow2(Log2(n)) == 2 * Pow2(Log2(h))
  {
    var k := Log2(h);
    assert Log2(n) == k + 1;
    assert Pow2(k + 1) == 2 * Pow2(k);
  }

  lemma EvenBitAnd(n: nat, h: nat)
    requires n > 1 && n == 2 * h
    ensures BitAnd(n, n - 1) == 2 * BitAnd(h, h - 1)
  {
    assert n % 2 == 0 && n / 2 == h;
    assert (n - 1) / 2 == h - 1 && (n - 1) % 2 == 1;
  }

  /** Odd n > 1 is neither accepted by the test nor a power of two. */
  lemma OddStep(n: nat)
    requires n > 1 && n % 2 == 1
    ensures !IsPowerOf2(n)
    ensures Pow2(Log2(n)) != n
  {
    var h := n / 2;
    assert (n - 1) / 2 == h && (n - 1) % 2 == 0;
    BitAndSelf(h);
    assert BitAnd(n, n - 1) == 2 * h;
    HalfLog(n, h);
  }

  lemma {:induction false} Pow2IsPowerOf2(k: nat)
    ensures IsPowerOf2(Pow2(k))
    ensures Log2(Pow2(k)) == k
  {
    if k > 0 {
      Pow2IsPowerOf2(k - 1);
      IsPowerOf2Exactly(Pow2(k - 1));
      IsPowerOf2Exactly(Pow2(k));
    }
  }
}
