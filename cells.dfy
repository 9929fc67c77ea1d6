/**
  The tile view the game hands out: a position, a value and the
  `recentlyMerged` flag. Equality and ordering look at the position and the
  value only.
 */
module Cells {

  datatype Cell = Cell(row: int, column: int, value: int, recentlyMerged: bool)

  /** The no-argument constructor. */
  function DefaultCell(): (c: Cell)
    ensures c.row == 0 && c.column == 0 && c.value == 0 && !c.recentlyMerged
  {
    Cell(0, 0, 0, false)
  }

  /** Same row, column and value; the flag is not compared. */
  predicate Equals(a: Cell, b: Cell) {
    a.row == b.row && a.column == b.column && a.value == b.value
  }

  /**
    Row first, then column, then the difference of the values. The
    difference is taken over unbounded integers.
   */
  function CompareTo(a: Cell, b: Cell): int {
    if a.row < b.row then -1
    else if a.row > b.row then 1
    else if a.column < b.column then -1
    else if a.column > b.column then 1
    else a.value - b.value
  }

  function Sign(x: int): int {
    if x < 0 then -1 else if x > 0 then 1 else 0
  }

  /** Lexicographic order on (row, column, value), stated independently of CompareTo. */
  predicate LexLess(a: Cell, b: Cell) {
    a.row < b.row
    || (a.row == b.row && a.column < b.column)
    || (a.row == b.row && a.column == b.column && a.value < b.value)
  }

  lemma EqualsIgnoresFlag(a: Cell, b: Cell)
    ensures Equals(a, b) <==> a.(recentlyMerged := false) == b.(recentlyMerged := false)
  {
  }

  lemma EqualsIsEquivalence(a: Cell, b: Cell, c: Cell)
    ensures Equals(a, a)
    ensures Equals(a, b) ==> Equals(b, a)
    ensures Equals(a, b) && Equals(b, c) ==> Equals(a, c)
  {
  }

  lemma CompareToZeroIffEquals(a: Cell, b: Cell)
    ensures CompareTo(a, b) == 0 <==> Equals(a, b)
  {
  }

  lemma CompareToAntisymmetric(a: Cell, b: Cell)
    ensures Sign(CompareTo(a, b)) == -Sign(CompareTo(b, a))
  {
  }

  lemma CompareToIsLexicographic(a: Cell, b: Cell)
    ensures CompareTo(a, b) < 0 <==> LexLess(a, b)
    ensures CompareTo(a, b) > 0 <==> LexLess(b, a)
  {
  }

  lemma CompareToTransitive(a: Cell, b: Cell, c: Cell)
    ensures CompareTo(a, b) < 0 && CompareTo(b, c) < 0 ==> CompareTo(a, c) < 0
  {
  }
}
