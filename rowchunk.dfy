/** align3.cpp: the row-chunk schedule. Rows are filled in order; row i is
    split by `i % 3` into one, two or four contiguous column chunks, and each
    chunk is filled left to right by `rowChunkSW`. The chunks of one row run
    here one after another, left to right. */
module RowChunk {
  import opened Scoring
  import opened Engine
  import opened MaxScore
  import opened Traceback

  /** The column chunks of row i for m = |t| columns, as the `switch` in
      `main` computes them: [1, m] for i % 3 == 1; [1, m/2], [m/2 + 1, m] for
      i % 3 == 2; and cuts at m/4, m/2 and 3m/4 for i % 3 == 0. A chunk (lo, hi)
      with hi < lo is empty. */
  function ChunkBounds(i: int, m: int): (cs: seq<(int, int)>)
    requires i >= 1 && m >= 0
    ensures |cs| == (if i % 3 == 1 then 1 else if i % 3 == 2 then 2 else 4)
    ensures Tiles(cs, 1, m)
  {
    if i % 3 == 1 then [(1, m)]
    else if i % 3 == 2 then [(1, m / 2), (m / 2 + 1, m)]
    else [(1, m / 4), (m / 4 + 1, m / 2), (m / 2 + 1, m * 3 / 4), (m * 3 / 4 + 1, m)]
  }

  /** cs lists chunks that start at lo, end at hi, and each start right after
      the previous one ends; every chunk has at least zero columns. */
  ghost predicate Tiles(cs: seq<(int, int)>, lo: int, hi: int) {
    && |cs| >= 1
    && cs[0].0 == lo && cs[|cs| - 1].1 == hi
    && (forall k :: 0 <= k < |cs| ==> cs[k].0 <= cs[k].1 + 1)
    && (forall k :: 0 <= k < |cs| - 1 ==> cs[k].1 + 1 == cs[k + 1].0)
  }

  /** Column j lies in chunk k. */
  ghost predicate InChunk(cs: seq<(int, int)>, k: int, j: int)
    requires 0 <= k < |cs|
  {
    cs[k].0 <= j <= cs[k].1
  }

  /** Column j lies in some chunk. */
  ghost predicate Covered(cs: seq<(int, int)>, j: int) {
    exists k :: 0 <= k < |cs| && InChunk(cs, k, j)
  }

  /** Tiling chunks are disjoint and cover exactly lo..hi. */
  lemma {:induction false} TilesPartition(cs: seq<(int, int)>, lo: int, hi: int)
    requires Tiles(cs, lo, hi)
    ensures forall j :: lo <= j <= hi <==> Covered(cs, j)
    ensures forall k1, k2, j :: 0 <= k1 < |cs| && 0 <= k2 < |cs| && InChunk(cs, k1, j) && InChunk(cs, k2, j) ==> k1 == k2
    decreases |cs|
  {
    if |cs| == 1 {
      forall j ensures lo <= j <= hi <==> Covered(cs, j) {
        if lo <= j <= hi {
          assert InChunk(cs, 0, j);
        }
      }
    } else {
      var rest := cs[1..];
      assert Tiles(rest, cs[0].1 + 1, hi) by {
        assert forall k :: 0 <= k < |rest| ==> rest[k] == cs[k + 1];
      }
      TilesPartition(rest, cs[0].1 + 1, hi);
      TilesStartsAfter(rest, cs[0].1 + 1, hi);
      forall j | lo <= j <= hi ensures Covered(cs, j) {
        if j <= cs[0].1 {
          assert InChunk(cs, 0, j);
        } else {
          assert Covered(rest, j);
          var k :| 0 <= k < |rest| && InChunk(rest, k, j);
          assert InChunk(cs, k + 1, j);
        }
      }
      forall j | Covered(cs, j) ensures lo <= j <= hi {
        var k :| 0 <= k < |cs| && InChunk(cs, k, j);
        if k > 0 {
          assert InChunk(rest, k - 1, j);
          assert Covered(rest, j);
        }
      }
      forall k1, k2, j | 0 <= k1 < |cs| && 0 <= k2 < |cs| && InChunk(cs, k1, j) && InChunk(cs, k2, j)
        ensures k1 == k2
      {
        if k1 > 0 && k2 > 0 {
          assert InChunk(rest, k1 - 1, j) && InChunk(rest, k2 - 1, j);
        } else if k1 > 0 {
          assert InChunk(rest, k1 - 1, j);
        } else if k2 > 0 {
          assert InChunk(rest, k2 - 1, j);
        }
      }
    }
  }

  /** Every column of a tiling lies at or after its start. */
  lemma {:induction false} TilesStartsAfter(cs: seq<(int, int)>, lo: int, hi: int)
    requires Tiles(cs, lo, hi)
    ensures forall k, j :: 0 <= k < |cs| && InChunk(cs, k, j) ==> lo <= j
    ensures lo <= hi + 1
    decreases |cs|
  {
    if |cs| > 1 {
      var rest := cs[1..];
      assert Tiles(rest, cs[0].1 + 1, hi) by {
        assert forall k :: 0 <= k < |rest| ==> rest[k] == cs[k + 1];
      }
      TilesStartsAfter(rest, cs[0].1 + 1, hi);
      forall k, j | 0 <= k < |cs| && InChunk(cs, k, j) ensures lo <= j {
        if k > 0 {
          assert InChunk(rest, k - 1, j);
        }
      }
    }
  }

  /** Every chunk of a tiling ends by its end. */
  lemma {:induction false} TilesEndBefore(cs: seq<(int, int)>, lo: int, hi: int, k: int)
    requires Tiles(cs, lo, hi) && 0 <= k < |cs|
    ensures cs[k].1 <= hi
    decreases |cs| - k
  {
    if k < |cs| - 1 {
      TilesEndBefore(cs, lo, hi, k + 1);
    }
  }

  /** The chunks of every row partition the columns 1..|t|. */
  lemma ChunkBoundsPartition(i: int, m: int)
    requires i >= 1 && m >= 0
    ensures forall j :: 1 <= j <= m <==> Covered(ChunkBounds(i, m), j)
    ensures forall k1, k2, j ::
              (0 <= k1 < |ChunkBounds(i, m)| && 0 <= k2 < |ChunkBounds(i, m)| &&
               InChunk(ChunkBounds(i, m), k1, j) && InChunk(ChunkBounds(i, m), k2, j)) ==> k1 == k2
  {
    TilesPartition(ChunkBounds(i, m), 1, m);
  }

  /** `rowChunkSW`: fill cells (row, beg.1) .. (row, end.1) of one row, left to
      right. The program exits unless beg and end are on the same row, so
      the outer loop runs exactly once. Afterwards every cell of the chunk
      holds the cell rule applied to its neighbours as they now are, and no
      other cell has changed. */
  method RowChunkSW(smat: array2<int>, tmat: array2<(int, int)>, s: seq<char>, t: seq<char>,
                    beg: (int, int), end: (int, int))
    requires Shaped(smat, tmat, s, t)
    requires beg.0 == end.0 && 1 <= beg.0 <= |s|
    requires 1 <= beg.1 && end.1 <= |t|
    modifies smat, tmat
    ensures forall j :: beg.1 <= j <= end.1 ==> Consistent(smat, tmat, s, t, beg.0, j)
    ensures forall a, b :: 0 <= a <= |s| && 0 <= b <= |t| && (a != beg.0 || b < beg.1 || b > end.1) ==>
              smat[a, b] == old(smat[a, b]) && tmat[a, b] == old(tmat[a, b])
  {
    var i := beg.0;
    while i == end.0
      invariant i == beg.0 || i == beg.0 + 1
      invariant i == beg.0 ==> forall a, b :: 0 <= a <= |s| && 0 <= b <= |t| ==>
                  smat[a, b] == old(smat[a, b]) && tmat[a, b] == old(tmat[a, b])
      invariant i == beg.0 + 1 ==> forall j :: beg.1 <= j <= end.1 ==> Consistent(smat, tmat, s, t, beg.0, j)
      invariant i == beg.0 + 1 ==> forall a, b :: 0 <= a <= |s| && 0 <= b <= |t| && (a != beg.0 || b < beg.1 || b > end.1) ==>
                  smat[a, b] == old(smat[a, b]) && tmat[a, b] == old(tmat[a, b])
      decreases end.0 + 1 - i
    {
      var j := beg.1;
      while j <= end.1
        invariant beg.1 <= j && (beg.1 <= end.1 + 1 ==> j <= end.1 + 1)
        invariant forall c :: beg.1 <= c < j && c <= end.1 ==> Consistent(smat, tmat, s, t, i, c)
        invariant forall a, b :: 0 <= a <= |s| && 0 <= b <= |t| && (a != i || b < beg.1 || b >= j || b > end.1) ==>
                    smat[a, b] == old(smat[a, b]) && tmat[a, b] == old(tmat[a, b])
      {
        label before:
        SmithWaterman(smat, tmat, s, t, i, j);
        forall c | beg.1 <= c < j
          ensures Consistent(smat, tmat, s, t, i, c)
        {
          assert old@before(Consistent(smat, tmat, s, t, i, c));
        }
        j := j + 1;
      }
      i := i + 1;
    }
  }

  /** A stretch of consistent cells whose row above and whose west end are
      finished is finished, cell by cell from the left. */
  lemma {:induction false} ConsistentRunAgrees(smat: array2<int>, tmat: array2<(int, int)>, s: seq<char>, t: seq<char>,
                                               i: int, lo: int, hi: int)
    requires Shaped(smat, tmat, s, t) && 1 <= i <= |s| && 1 <= lo <= hi + 1 && hi <= |t|
    requires forall a, b :: 0 <= a < i && 0 <= b <= |t| ==> Agrees(smat, tmat, s, t, a, b)
    requires Agrees(smat, tmat, s, t, i, lo - 1)
    requires forall j :: lo <= j <= hi ==> Consistent(smat, tmat, s, t, i, j)
    ensures forall j :: lo - 1 <= j <= hi ==> Agrees(smat, tmat, s, t, i, j)
    decreases hi - lo
  {
    if lo <= hi {
      ConsistentRunAgrees(smat, tmat, s, t, i, lo, hi - 1);
      assert Agrees(smat, tmat, s, t, i - 1, hi) && Agrees(smat, tmat, s, t, i - 1, hi - 1);
      assert Agrees(smat, tmat, s, t, i, hi - 1);
      CellAtNeighboursAgree(smat, tmat, s, t, i, hi);
      assert Consistent(smat, tmat, s, t, i, hi);
    }
  }

  /** The row loop of `main` in align3.cpp with the chunks of each row run
      left to right: the finished matrices are SW everywhere, so they equal
      those of the row-major fill. */
  method Fill(s: seq<char>, t: seq<char>) returns (smat: array2<int>, tmat: array2<(int, int)>)
    ensures fresh(smat) && fresh(tmat) && Shaped(smat, tmat, s, t)
    ensures forall i, j :: 0 <= i <= |s| && 0 <= j <= |t| ==> Agrees(smat, tmat, s, t, i, j)
  {
    smat, tmat := InitMatrices(s, t);
    var i := 1;
    while i <= |s|
      invariant 1 <= i <= |s| + 1
      invariant forall a, b :: 0 <= a <= |s| && 0 <= b <= |t| && (a == 0 || b == 0 || a < i) ==>
                  Agrees(smat, tmat, s, t, a, b)
    {
      var cs := ChunkBounds(i, |t|);
      var k := 0;
      while k < |cs|
        invariant 0 <= k <= |cs|
        invariant forall a, b ::
                    (0 <= a <= |s| && 0 <= b <= |t| && (a == 0 || b == 0 || a < i || (a == i && k > 0 && b <= cs[k - 1].1))) ==>
                    Agrees(smat, tmat, s, t, a, b)
      {
        var lo, hi := cs[k].0, cs[k].1;
        assert lo == (if k == 0 then 1 else cs[k - 1].1 + 1);
        assert 1 <= lo <= hi + 1 && hi <= |t| by {
          TilesStartsAfter(cs, 1, |t|);
          TilesEndBefore(cs, 1, |t|, k);
        }
        label before:
        RowChunkSW(smat, tmat, s, t, (i, lo), (i, hi));
        forall a, b | 0 <= a <= |s| && 0 <= b <= |t| &&
                      (a == 0 || b == 0 || a < i || (a == i && k > 0 && b <= cs[k - 1].1))
          ensures Agrees(smat, tmat, s, t, a, b)
        {
          assert old@before(Agrees(smat, tmat, s, t, a, b));
        }
        ConsistentRunAgrees(smat, tmat, s, t, i, lo, hi);
        k := k + 1;
      }
      i := i + 1;
    }
  }

  /** `main` of align3.cpp without its I/O: fill, `maxScore`, `traceback`,
      with the same guarantees as the ready-queue program. */
  method Align(s: seq<char>, t: seq<char>) returns (best: int, row: int, col: int, route: seq<(int, int)>)
    ensures best >= 0
    ensures forall i, j :: 1 <= i <= |s| && 1 <= j <= |t| ==> SW(s, t, i, j).score <= best
    ensures best == 0 ==> (row, col) == (|s|, |t|)
    ensures best > 0 ==>
              1 <= row <= |s| && 1 <= col <= |t| && SW(s, t, row, col).score == best &&
              forall i, j {:trigger SW(s, t, i, j)} :: 1 <= i <= |s| && 1 <= j <= |t| && SW(s, t, i, j).score == best ==> LexLeq((i, j), (row, col))
    ensures |route| >= 1 && route[|route| - 1] == (row, col)
    ensures forall k :: 0 <= k < |route| ==> 0 <= route[k].0 <= |s| && 0 <= route[k].1 <= |t|
    ensures forall k :: 0 <= k < |route| - 1 ==> route[k] != (0, 0)
    ensures forall k {:trigger FinishedPred(s, t, route[k])} :: 1 <= k < |route| ==>
              FinishedPred(s, t, route[k]) == route[k - 1]
    ensures FinishedPred(s, t, route[0]) == (0, 0)
    ensures route[0].0 == 0 || route[0].1 == 0 || route[0] == (1, 1)
  {
    var smat, tmat := Fill(s, t);
    best, row, col := MaxScore.MaxScore(smat);
    FinishedBound(smat, tmat, s, t, best);
    if best > 0 {
      FinishedLastHolder(smat, tmat, s, t, best, row, col);
    }
    FinishedPointsBack(smat, tmat, s, t);
    route := Traceback.Traceback(tmat, (row, col));
    FinishedRoute(smat, tmat, s, t, route);
  }
}
