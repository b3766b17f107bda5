/** align.cpp: the sequential program. `main` marks the interior NOT_READY,
    then computes every cell in row-major order, then runs `maxScore` (the
    corner-started version). */
module RowMajor {
  import opened Scoring
  import opened Engine
  import opened MaxScore

  /** The row-major fill of `main`. Each cell finds its three neighbours
      computed, and the finished matrices are SW everywhere. */
  method Fill(s: seq<char>, t: seq<char>) returns (smat: array2<int>, tmat: array2<(int, int)>)
    ensures fresh(smat) && fresh(tmat) && Shaped(smat, tmat, s, t)
    ensures forall i, j :: 0 <= i <= |s| && 0 <= j <= |t| ==> Agrees(smat, tmat, s, t, i, j)
  {
    smat, tmat := InitMatrices(s, t);
    var i := 1;
    while i <= |s|
      invariant 1 <= i <= |s| + 1
      invariant forall a, b :: 0 <= a <= |s| && 0 <= b <= |t| && (a == 0 || b == 0 || a < i) ==>
                  Agrees(smat, tmat, s, t, a, b)
      invariant forall a, b :: i <= a <= |s| && 1 <= b <= |t| ==> smat[a, b] == NOT_READY
    {
      var j := 1;
      while j <= |t|
        invariant 1 <= j <= |t| + 1
        invariant forall a, b :: 0 <= a <= |s| && 0 <= b <= |t| && (a == 0 || b == 0 || a < i || (a == i && b < j)) ==>
                    Agrees(smat, tmat, s, t, a, b)
        invariant forall a, b :: i <= a <= |s| && 1 <= b <= |t| && (a > i || b >= j) ==> smat[a, b] == NOT_READY
      {
        assert Agrees(smat, tmat, s, t, i - 1, j) && Agrees(smat, tmat, s, t, i - 1, j - 1) && Agrees(smat, tmat, s, t, i, j - 1);
        assert Ready(smat, i, j);
        CellAtNeighboursAgree(smat, tmat, s, t, i, j);
        label before:
        SmithWaterman(smat, tmat, s, t, i, j);
        forall a, b | 0 <= a <= |s| && 0 <= b <= |t| && (a == 0 || b == 0 || a < i || (a == i && b <= j))
          ensures Agrees(smat, tmat, s, t, a, b)
        {
          if a != i || b != j {
            assert old@before(Agrees(smat, tmat, s, t, a, b));
          }
        }
        j := j + 1;
      }
      i := i + 1;
    }
  }

  /** `main` of align.cpp without its I/O: fill the matrices, then report
      `maxScore`. The score is the largest finished score (0 for an empty
      sequence); the coordinates are (0, 0) unless some interior cell beats the
      corner, and otherwise name the lowermost, then rightmost, cell holding it. */
  method Align(s: seq<char>, t: seq<char>) returns (best: int, row: int, col: int)
    ensures best >= SW(s, t, |s|, |t|).score
    ensures forall i, j :: 1 <= i <= |s| && 1 <= j <= |t| ==> SW(s, t, i, j).score <= best
    ensures (row, col) == (0, 0) <==> best == SW(s, t, |s|, |t|).score
    ensures (row, col) != (0, 0) ==>
              1 <= row <= |s| && 1 <= col <= |t| && SW(s, t, row, col).score == best &&
              forall i, j {:trigger SW(s, t, i, j)} :: 1 <= i <= |s| && 1 <= j <= |t| && SW(s, t, i, j).score == best ==> LexLeq((i, j), (row, col))
  {
    var smat, tmat := Fill(s, t);
    best, row, col := MaxScoreFromCorner(smat);
    assert Agrees(smat, tmat, s, t, |s|, |t|);
    FinishedBound(smat, tmat, s, t, best);
    if (row, col) != (0, 0) {
      FinishedLastHolder(smat, tmat, s, t, best, row, col);
    }
  }

  /** `maxScore` of align.cpp loses the coordinates of a maximum that sits in
      the bottom-right corner: for s = t = "A" the fill leaves score 1 in the
      corner cell (1, 1), and the result is score 1 at (0, 0), a cell that
      holds 0. */
  method CornerMaximumLosesItsCell() returns (best: int, row: int, col: int, held: int)
    ensures (best, row, col) == (1, 0, 0) && held == 0 && held != best
  {
    var smat, tmat := Fill("A", "A");
    assert SW("A", "A", 1, 1).score == 1;
    assert Agrees(smat, tmat, "A", "A", 1, 1) && Agrees(smat, tmat, "A", "A", 0, 0);
    best, row, col := MaxScoreFromCorner(smat);
    assert Interior(smat, 1, 1);
    held := smat[row, col];
  }
}
