/**
  Boards worked through by the model: merges cascade along a line, a line
  that cannot move reports no change, and the power-of-two test.
 */
module Examples {
  import opened Board
  import opened Sliding
  import opened Game

  /** Writing into a one-row board. */
  lemma OneRow(g: Grid, c: nat, x: int, want: seq<int>)
    requires |g| == 1 && c < |g[0]| && g[0][c := x] == want
    ensures Set(g, 0, c, x) == [want]
  {
  }

  /** [2,2,4,4] slid left: the two 2s make a 4, which then merges with the next 4. */
  lemma CascadingMerge()
    ensures SlidePhase([[2, 2, 4, 4]], LEFT) == SlideState([[8, 4, 0, 0]], true)
  {
    CascadeFirstTwo();
    CascadeThird();
    CascadeFourth();
  }

  lemma CascadeFirstTwo()
    ensures Pass([[2, 2, 4, 4]], LEFT, 0, 2) == SlideState([[4, 0, 4, 4]], true)
  {
    var g0: Grid := [[2, 2, 4, 4]];
    assert Pass(g0, LEFT, 0, 1) == SlideState(g0, false) by {
      assert Scan(g0, LEFT, 0, 0, 2, 1) == Landing(0, 2, false);
      SetBack(g0, 0, 0, 0);
    }
    assert Scan(g0, LEFT, 0, 1, 2, 1) == Landing(1, 4, true);
    OneRow(g0, 1, 0, [2, 0, 4, 4]);
    OneRow([[2, 0, 4, 4]], 0, 4, [4, 0, 4, 4]);
  }

  lemma CascadeThird()
    requires Pass([[2, 2, 4, 4]], LEFT, 0, 2) == SlideState([[4, 0, 4, 4]], true)
    ensures Pass([[2, 2, 4, 4]], LEFT, 0, 3) == SlideState([[8, 0, 0, 4]], true)
  {
    var g: Grid := [[4, 0, 4, 4]];
    assert Scan(g, LEFT, 0, 2, 4, 1) == Landing(2, 8, true);
    OneRow(g, 2, 0, [4, 0, 0, 4]);
    OneRow([[4, 0, 0, 4]], 0, 8, [8, 0, 0, 4]);
  }

  lemma CascadeFourth()
    requires Pass([[2, 2, 4, 4]], LEFT, 0, 3) == SlideState([[8, 0, 0, 4]], true)
    ensures Pass([[2, 2, 4, 4]], LEFT, 1, 0) == SlideState([[8, 4, 0, 0]], true)
  {
    var g: Grid := [[8, 0, 0, 4]];
    CascadeLastScan();
    OneRow(g, 3, 0, [8, 0, 0, 0]);
    OneRow([[8, 0, 0, 0]], 1, 4, [8, 4, 0, 0]);
    assert Pass([[2, 2, 4, 4]], LEFT, 0, 4) == SlideState([[8, 4, 0, 0]], true);
  }

  /** The last 4 passes over two empty cells and stops next to the 8. */
  lemma CascadeLastScan()
    ensures Scan([[8, 0, 0, 4]], LEFT, 0, 3, 4, 1) == Landing(2, 4, false)
  {
    var g: Grid := [[8, 0, 0, 4]];
    assert Scan(g, LEFT, 0, 3, 4, 3) == Landing(2, 4, false);
    assert Scan(g, LEFT, 0, 3, 4, 2) == Landing(2, 4, false);
  }

  /** [2,4,2,0] slid left: no tile has an empty or equal neighbour to its left. */
  lemma BlockedLine()
    ensures SlidePhase([[2, 4, 2, 0]], LEFT) == SlideState([[2, 4, 2, 0]], false)
  {
    var g0: Grid := [[2, 4, 2, 0]];
    forall c: nat | c < 4
      ensures Set(Set(g0, 0, c, 0), 0, c, g0[0][c]) == g0
    {
      SetBack(g0, 0, c, 0);
    }
    assert Pass(g0, LEFT, 0, 1) == SlideState(g0, false) by {
      assert Scan(g0, LEFT, 0, 0, 2, 1) == Landing(0, 2, false);
    }
    assert Pass(g0, LEFT, 0, 2) == SlideState(g0, false) by {
      assert Scan(g0, LEFT, 0, 1, 4, 1) == Landing(0, 4, false);
    }
    assert Pass(g0, LEFT, 0, 3) == SlideState(g0, false) by {
      assert Scan(g0, LEFT, 0, 2, 2, 1) == Landing(0, 2, false);
    }
    assert Pass(g0, LEFT, 0, 4) == SlideState(g0, false);
  }

  lemma SimpleMerge()
    ensures SlidePhase([[2, 2, 0, 0]], LEFT) == SlideState([[4, 0, 0, 0]], true)
  {
    var g0: Grid := [[2, 2, 0, 0]];
    assert Pass(g0, LEFT, 0, 1) == SlideState(g0, false) by {
      assert Scan(g0, LEFT, 0, 0, 2, 1) == Landing(0, 2, false);
      SetBack(g0, 0, 0, 0);
    }
    assert Pass(g0, LEFT, 0, 2) == SlideState([[4, 0, 0, 0]], true) by {
      assert Scan(g0, LEFT, 0, 1, 2, 1) == Landing(1, 4, true);
      OneRow(g0, 1, 0, [2, 0, 0, 0]);
      OneRow([[2, 0, 0, 0]], 0, 4, [4, 0, 0, 0]);
    }
    assert Pass(g0, LEFT, 0, 4) == SlideState([[4, 0, 0, 0]], true);
  }

  lemma PowersOfTwo()
    ensures IsPowerOf2(1) && IsPowerOf2(1024)
    ensures !IsPowerOf2(0) && !IsPowerOf2(-8) && !IsPowerOf2(6)
  {
    Pow2IsPowerOf2(10);
    assert Pow2(10) == 1024;
    assert BitAnd(6, 5) == 4;
  }
}
