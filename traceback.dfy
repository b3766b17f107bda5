/** `traceback` of align2.cpp and align3.cpp: follow the predecessor matrix
    from a starting cell until the stored predecessor is (0, 0), then reverse
    the collected cells so that the route runs towards the starting cell. */
module Traceback {
  import opened Scoring
  import opened Engine

  /** p is a cell of tmat. */
  ghost predicate InGrid(tmat: array2<(int, int)>, p: (int, int)) {
    0 <= p.0 < tmat.Length0 && 0 <= p.1 < tmat.Length1
  }

  /** The predecessor stored for cell p. */
  ghost function Stored(tmat: array2<(int, int)>, p: (int, int)): (int, int)
    reads tmat
    requires InGrid(tmat, p)
  {
    tmat[p.0, p.1]
  }

  /** Every stored predecessor is (0, 0) or a cell no further down and no
      further right that is strictly closer to the origin. This is what makes
      the walk stay inside the matrix and stop. */
  ghost predicate PointsBack(tmat: array2<(int, int)>)
    reads tmat
  {
    forall i, j :: 0 <= i < tmat.Length0 && 0 <= j < tmat.Length1 ==>
      tmat[i, j] == (0, 0) ||
      (0 <= tmat[i, j].0 <= i && 0 <= tmat[i, j].1 <= j && tmat[i, j].0 + tmat[i, j].1 < i + j)
  }

  /** A finished predecessor matrix points back. */
  lemma FinishedPointsBack(smat: array2<int>, tmat: array2<(int, int)>, s: seq<char>, t: seq<char>)
    requires Shaped(smat, tmat, s, t)
    requires forall i, j :: 0 <= i <= |s| && 0 <= j <= |t| ==> Agrees(smat, tmat, s, t, i, j)
    ensures PointsBack(tmat)
  {
    forall i, j | 0 <= i < tmat.Length0 && 0 <= j < tmat.Length1
      ensures tmat[i, j] == (0, 0) ||
              (0 <= tmat[i, j].0 <= i && 0 <= tmat[i, j].1 <= j && tmat[i, j].0 + tmat[i, j].1 < i + j)
    {
      assert Agrees(smat, tmat, s, t, i, j);
    }
  }

  /** The elements of xs in the opposite order (std::reverse). */
  function Reversed<T>(xs: seq<T>): (r: seq<T>)
    ensures |r| == |xs|
    ensures forall k :: 0 <= k < |xs| ==> r[k] == xs[|xs| - 1 - k]
  {
    if |xs| == 0 then [] else [xs[|xs| - 1]] + Reversed(xs[..|xs| - 1])
  }

  /** The route ends with p; each earlier entry is the stored predecessor of
      the entry after it and is not (0, 0); the first entry's stored
      predecessor is (0, 0). Away from the origin the route has at most
      p.0 + p.1 entries. The matrix is only read. */
  method Traceback(tmat: array2<(int, int)>, p: (int, int)) returns (route: seq<(int, int)>)
    requires InGrid(tmat, p) && PointsBack(tmat)
    ensures |route| >= 1 && route[|route| - 1] == p
    ensures forall k :: 0 <= k < |route| ==> InGrid(tmat, route[k])
    ensures forall k :: 0 <= k < |route| - 1 ==> route[k] != (0, 0)
    ensures forall k {:trigger Stored(tmat, route[k])} :: 1 <= k < |route| ==> InGrid(tmat, route[k]) && Stored(tmat, route[k]) == route[k - 1]
    ensures InGrid(tmat, route[0]) && Stored(tmat, route[0]) == (0, 0)
    ensures p != (0, 0) ==> |route| <= p.0 + p.1
  {
    var walk := [p];
    var cell := tmat[p.0, p.1];
    while cell != (0, 0)
      invariant |walk| >= 1 && walk[0] == p
      invariant forall k :: 0 <= k < |walk| ==> InGrid(tmat, walk[k])
      invariant forall k :: 0 <= k < |walk| ==> walk[k].0 + walk[k].1 <= p.0 + p.1 - k
      invariant forall k :: 1 <= k < |walk| ==> walk[k] != (0, 0)
      invariant forall k :: 0 <= k < |walk| - 1 ==> tmat[walk[k].0, walk[k].1] == walk[k + 1]
      invariant cell == tmat[walk[|walk| - 1].0, walk[|walk| - 1].1]
      decreases cell.0 + cell.1
    {
      walk := walk + [cell];
      cell := tmat[cell.0, cell.1];
    }
    route := Reversed(walk);
  }

  /** A route through a finished predecessor matrix follows the finished
      predecessors SW, and starts on row 0, on column 0 or at (1, 1). */
  lemma {:induction false} FinishedRoute(smat: array2<int>, tmat: array2<(int, int)>, s: seq<char>, t: seq<char>,
                                         route: seq<(int, int)>)
    requires Shaped(smat, tmat, s, t)
    requires forall i, j :: 0 <= i <= |s| && 0 <= j <= |t| ==> Agrees(smat, tmat, s, t, i, j)
    requires |route| >= 1
    requires forall k :: 0 <= k < |route| ==> InGrid(tmat, route[k])
    requires forall k {:trigger Stored(tmat, route[k])} :: 1 <= k < |route| ==>
               InGrid(tmat, route[k]) && Stored(tmat, route[k]) == route[k - 1]
    requires InGrid(tmat, route[0]) && Stored(tmat, route[0]) == (0, 0)
    ensures forall k :: 0 <= k < |route| ==> 0 <= route[k].0 <= |s| && 0 <= route[k].1 <= |t|
    ensures forall k {:trigger FinishedPred(s, t, route[k])} :: 1 <= k < |route| ==>
              FinishedPred(s, t, route[k]) == route[k - 1]
    ensures FinishedPred(s, t, route[0]) == (0, 0)
    ensures route[0].0 == 0 || route[0].1 == 0 || route[0] == (1, 1)
  {
    forall k {:trigger FinishedPred(s, t, route[k])} | 1 <= k < |route|
      ensures FinishedPred(s, t, route[k]) == route[k - 1]
    {
      assert Stored(tmat, route[k]) == route[k - 1];
      assert Agrees(smat, tmat, s, t, route[k].0, route[k].1);
    }
    assert Agrees(smat, tmat, s, t, route[0].0, route[0].1);
    SWOriginPredecessor(s, t, route[0].0, route[0].1);
  }
}
