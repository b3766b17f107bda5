/** `maxScore`: a reverse row-by-row scan of the interior of the score matrix
    that replaces the running best only on a strictly greater value. The two
    versions of the program differ only in the triple the scan starts from. */
module MaxScore {
  import opened Scoring
  import opened Engine

  /** (i, j) is an interior cell of mat: neither row 0 nor column 0. */
  ghost predicate Interior(mat: array2<int>, i: int, j: int) {
    InRange(mat.Length0 - 1, mat.Length1 - 1, (i, j))
  }

  /** p comes no later than q in row-major order: a lower row, or the same row
      and a column no further right. */
  predicate LexLeq(p: (int, int), q: (int, int)) {
    p.0 < q.0 || (p.0 == q.0 && p.1 <= q.1)
  }

  /** (row, col) holds best, and it is the lowermost, then rightmost, interior
      cell holding it. */
  ghost predicate LastHolder(mat: array2<int>, best: int, row: int, col: int)
    reads mat
  {
    && Interior(mat, row, col) && mat[row, col] == best
    && forall i, j {:trigger mat[i, j]} :: Interior(mat, i, j) && mat[i, j] == best ==> LexLeq((i, j), (row, col))
  }

  /** The nested loops shared by both versions of `maxScore`, started from
      the running triple (init, row0, col0). */
  method ReverseScan(mat: array2<int>, init: int, row0: int, col0: int) returns (best: int, row: int, col: int)
    requires mat.Length0 >= 1 && mat.Length1 >= 1
    ensures best >= init
    ensures forall i, j :: Interior(mat, i, j) ==> mat[i, j] <= best
    ensures best == init ==> (row, col) == (row0, col0)
    ensures best > init ==> LastHolder(mat, best, row, col)
  {
    var sSize := mat.Length0 - 1;
    var tSize := mat.Length1 - 1;
    best, row, col := init, row0, col0;
    var i := sSize;
    while i >= 1
      invariant 0 <= i <= sSize
      invariant best >= init
      invariant forall a, b :: Interior(mat, a, b) && a > i ==> mat[a, b] <= best
      invariant best == init ==> (row, col) == (row0, col0)
      invariant best > init ==> Interior(mat, row, col) && row > i && mat[row, col] == best
      invariant best > init ==> forall a, b {:trigger mat[a, b]} :: Interior(mat, a, b) && a > i && mat[a, b] == best ==> LexLeq((a, b), (row, col))
    {
      var j := tSize;
      while j >= 1
        invariant 0 <= j <= tSize
        invariant best >= init
        invariant forall a, b :: Interior(mat, a, b) && (a > i || (a == i && b > j)) ==> mat[a, b] <= best
        invariant best == init ==> (row, col) == (row0, col0)
        invariant best > init ==> Interior(mat, row, col) && (row > i || (row == i && col > j)) && mat[row, col] == best
        invariant best > init ==> forall a, b {:trigger mat[a, b]} :: Interior(mat, a, b) && (a > i || (a == i && b > j)) && mat[a, b] == best ==>
                    LexLeq((a, b), (row, col))
      {
        if mat[i, j] > best {
          best, row, col := mat[i, j], i, j;
        }
        j := j - 1;
      }
      i := i - 1;
    }
  }

  /** `maxScore` of align.cpp: the running best starts at the bottom-right
      corner's value with coordinates (0, 0), so the coordinates stay (0, 0)
      unless some interior cell strictly exceeds the corner. */
  method MaxScoreFromCorner(mat: array2<int>) returns (best: int, row: int, col: int)
    requires mat.Length0 >= 1 && mat.Length1 >= 1
    ensures best >= mat[mat.Length0 - 1, mat.Length1 - 1]
    ensures forall i, j :: Interior(mat, i, j) ==> mat[i, j] <= best
    ensures (row, col) == (0, 0) <==> best == mat[mat.Length0 - 1, mat.Length1 - 1]
    ensures (row, col) != (0, 0) ==> LastHolder(mat, best, row, col)
  {
    best, row, col := ReverseScan(mat, mat[mat.Length0 - 1, mat.Length1 - 1], 0, 0);
  }

  /** `maxScore` of align2.cpp and align3.cpp: the running best starts at 0
      with the bottom-right corner's coordinates. An interior without a
      positive cell therefore yields (0, |s|, |t|). */
  method MaxScore(mat: array2<int>) returns (best: int, row: int, col: int)
    requires mat.Length0 >= 1 && mat.Length1 >= 1
    ensures best >= 0
    ensures forall i, j :: Interior(mat, i, j) ==> mat[i, j] <= best
    ensures best == 0 ==> (row, col) == (mat.Length0 - 1, mat.Length1 - 1)
    ensures best > 0 ==> LastHolder(mat, best, row, col)
  {
    best, row, col := ReverseScan(mat, 0, mat.Length0 - 1, mat.Length1 - 1);
  }

  /** A bound on every interior score of finished matrices bounds SW. */
  lemma {:induction false} FinishedBound(smat: array2<int>, tmat: array2<(int, int)>, s: seq<char>, t: seq<char>, best: int)
    requires Shaped(smat, tmat, s, t)
    requires forall i, j :: 0 <= i <= |s| && 0 <= j <= |t| ==> Agrees(smat, tmat, s, t, i, j)
    requires forall i, j :: Interior(smat, i, j) ==> smat[i, j] <= best
    ensures forall i, j :: 1 <= i <= |s| && 1 <= j <= |t| ==> SW(s, t, i, j).score <= best
  {
    forall i, j | 1 <= i <= |s| && 1 <= j <= |t|
      ensures SW(s, t, i, j).score <= best
    {
      assert Agrees(smat, tmat, s, t, i, j);
      assert Interior(smat, i, j);
    }
  }

  /** The last holder of a score in finished matrices is the lowermost, then
      rightmost, interior cell whose SW score it is. */
  lemma {:induction false} FinishedLastHolder(smat: array2<int>, tmat: array2<(int, int)>, s: seq<char>, t: seq<char>,
                                              best: int, row: int, col: int)
    requires Shaped(smat, tmat, s, t)
    requires forall i, j :: 0 <= i <= |s| && 0 <= j <= |t| ==> Agrees(smat, tmat, s, t, i, j)
    requires LastHolder(smat, best, row, col)
    ensures 1 <= row <= |s| && 1 <= col <= |t| && SW(s, t, row, col).score == best
    ensures forall i, j {:trigger SW(s, t, i, j)} :: 1 <= i <= |s| && 1 <= j <= |t| && SW(s, t, i, j).score == best ==> LexLeq((i, j), (row, col))
  {
    assert Agrees(smat, tmat, s, t, row, col);
    forall i, j {:trigger SW(s, t, i, j)} | 1 <= i <= |s| && 1 <= j <= |t| && SW(s, t, i, j).score == best
      ensures LexLeq((i, j), (row, col))
    {
      assert Agrees(smat, tmat, s, t, i, j);
      assert Interior(smat, i, j);
    }
  }
}
