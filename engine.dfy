/** The score matrix and predecessor ("traceback") matrix, the whole-matrix
    specification SW, and the in-place cell update SmithWaterman that every
    fill schedule drives. */
module Engine {
  import opened Scoring

  /** Marks an interior score cell that has not been computed yet. */
  const NOT_READY: int := -999

  /** The finished matrices, cell by cell: row 0 and column 0 hold score 0 and
      predecessor (0, 0); an interior cell applies the cell rule to the
      finished values of its north, northwest and west neighbours. */
  ghost function SW(s: seq<char>, t: seq<char>, i: int, j: int): (c: Cell)
    requires 0 <= i <= |s| && 0 <= j <= |t|
    ensures c.score >= 0 && c.score != NOT_READY
    ensures i >= 1 && j >= 1 ==> Dependency(c.pred, i, j)
    decreases i + j
  {
    if i == 0 || j == 0 then Cell(0, (0, 0))
    else Recurrence(SW(s, t, i - 1, j).score - GAP_PENALTY,
                    SW(s, t, i - 1, j - 1).score + Similarity(s, t, i, j),
                    SW(s, t, i, j - 1).score - GAP_PENALTY, i, j)
  }

  /** A predecessor is (0, 0) only on the boundary or at (1, 1), so a walk
      along predecessors ends on row 0, on column 0, or at (1, 1). */
  lemma {:induction false} SWOriginPredecessor(s: seq<char>, t: seq<char>, i: int, j: int)
    requires 0 <= i <= |s| && 0 <= j <= |t|
    requires SW(s, t, i, j).pred == (0, 0)
    ensures i == 0 || j == 0 || (i, j) == (1, 1)
  {
  }

  /** The finished predecessor of cell p. */
  ghost function FinishedPred(s: seq<char>, t: seq<char>, p: (int, int)): (int, int)
    requires 0 <= p.0 <= |s| && 0 <= p.1 <= |t|
  {
    SW(s, t, p.0, p.1).pred
  }

  /** p is an interior cell of a matrix with n = |s| rows and m = |t|
      columns past row 0 and column 0. */
  ghost predicate InRange(n: int, m: int, p: (int, int)) {
    1 <= p.0 <= n && 1 <= p.1 <= m
  }

  /** Both matrices have |s| + 1 rows and |t| + 1 columns. */
  ghost predicate Shaped(smat: array2<int>, tmat: array2<(int, int)>, s: seq<char>, t: seq<char>) {
    && smat.Length0 == |s| + 1 && smat.Length1 == |t| + 1
    && tmat.Length0 == |s| + 1 && tmat.Length1 == |t| + 1
  }

  /** Cell (i, j) of both matrices holds its finished value. */
  ghost predicate Agrees(smat: array2<int>, tmat: array2<(int, int)>, s: seq<char>, t: seq<char>, i: int, j: int)
    reads smat, tmat
    requires Shaped(smat, tmat, s, t) && 0 <= i <= |s| && 0 <= j <= |t|
  {
    smat[i, j] == SW(s, t, i, j).score && tmat[i, j] == SW(s, t, i, j).pred
  }

  /** None of the three neighbours of (row, col) is still marked NOT_READY. */
  ghost predicate Ready(smat: array2<int>, row: int, col: int)
    reads smat
    requires 1 <= row < smat.Length0 && 1 <= col < smat.Length1
  {
    smat[row - 1, col] != NOT_READY && smat[row - 1, col - 1] != NOT_READY && smat[row, col - 1] != NOT_READY
  }

  /** What SmithWaterman computes for (row, col) from the current matrix. */
  ghost function CellAt(smat: array2<int>, s: seq<char>, t: seq<char>, row: int, col: int): Cell
    reads smat
    requires 1 <= row < smat.Length0 && 1 <= col < smat.Length1 && row <= |s| && col <= |t|
  {
    Recurrence(North(smat, row, col), NorthWest(smat, s, t, row, col), West(smat, row, col), row, col)
  }

  /** Cell (row, col) holds the rule applied to its neighbours as they are now. */
  ghost predicate Consistent(smat: array2<int>, tmat: array2<(int, int)>, s: seq<char>, t: seq<char>, row: int, col: int)
    reads smat, tmat
    requires Shaped(smat, tmat, s, t) && 1 <= row <= |s| && 1 <= col <= |t|
  {
    smat[row, col] == CellAt(smat, s, t, row, col).score && tmat[row, col] == CellAt(smat, s, t, row, col).pred
  }

  /** When the three neighbours hold their finished scores, the cell rule
      yields the finished cell. So computing a cell again after its
      neighbours are final rewrites the same score and predecessor. */
  lemma CellAtNeighboursAgree(smat: array2<int>, tmat: array2<(int, int)>, s: seq<char>, t: seq<char>, row: int, col: int)
    requires Shaped(smat, tmat, s, t) && 1 <= row <= |s| && 1 <= col <= |t|
    requires smat[row - 1, col] == SW(s, t, row - 1, col).score
    requires smat[row - 1, col - 1] == SW(s, t, row - 1, col - 1).score
    requires smat[row, col - 1] == SW(s, t, row, col - 1).score
    ensures CellAt(smat, s, t, row, col) == SW(s, t, row, col)
  {
  }

  /** `SmithWaterman` in align.cpp and align3.cpp: compute the cell rule from
      the current neighbours and write score and predecessor of (row, col),
      and nothing else. */
  method SmithWaterman(smat: array2<int>, tmat: array2<(int, int)>, s: seq<char>, t: seq<char>, row: int, col: int)
    requires Shaped(smat, tmat, s, t)
    requires 1 <= row <= |s| && 1 <= col <= |t|
    modifies smat, tmat
    ensures smat[row, col] == old(CellAt(smat, s, t, row, col)).score
    ensures tmat[row, col] == old(CellAt(smat, s, t, row, col)).pred
    ensures forall i, j :: 0 <= i <= |s| && 0 <= j <= |t| && (i != row || j != col) ==>
              smat[i, j] == old(smat[i, j]) && tmat[i, j] == old(tmat[i, j])
  {
    var scores := [North(smat, row, col), NorthWest(smat, s, t, row, col), West(smat, row, col)];
    var topIndex := MaxElement(scores);
    var topScore := scores[topIndex];
    if topScore < 0 {
      topScore := 0;
    }
    smat[row, col] := topScore;
    tmat[row, col] := Source(topIndex, row, col);
  }

  /** The zeroed matrices of `main` with every interior score cell marked
      NOT_READY (the same lines in all three programs). */
  method InitMatrices(s: seq<char>, t: seq<char>) returns (smat: array2<int>, tmat: array2<(int, int)>)
    ensures fresh(smat) && fresh(tmat) && Shaped(smat, tmat, s, t)
    ensures forall i, j :: 0 <= i <= |s| && 0 <= j <= |t| ==>
              smat[i, j] == (if i == 0 || j == 0 then 0 else NOT_READY) && tmat[i, j] == (0, 0)
  {
    smat := new int[|s| + 1, |t| + 1]((i, j) => 0);
    tmat := new (int, int)[|s| + 1, |t| + 1]((i, j) => (0, 0));
    var i := 1;
    while i <= |s|
      invariant 1 <= i <= |s| + 1
      invariant forall a, b :: 0 <= a <= |s| && 0 <= b <= |t| ==>
                  smat[a, b] == (if 1 <= a < i && b != 0 then NOT_READY else 0) && tmat[a, b] == (0, 0)
    {
      var j := 1;
      while j <= |t|
        invariant 1 <= j <= |t| + 1
        invariant forall a, b :: 0 <= a <= |s| && 0 <= b <= |t| ==>
                    smat[a, b] == (if (1 <= a < i || (a == i && b < j)) && b != 0 then NOT_READY else 0)
                    && tmat[a, b] == (0, 0)
      {
        smat[i, j] := NOT_READY;
        j := j + 1;
      }
      i := i + 1;
    }
  }
}
