/** The Smith-Waterman scoring rule shared, almost word for word, by align.cpp,
    align2.cpp and align3.cpp: the three neighbour candidates, the symbol
    similarity with its wildcard, the first-maximum selection done by
    std::max_element, and the mapping from the winning index to the
    predecessor coordinate. */
module Scoring {

  const GAP_PENALTY: int := 2
  const MATCH_BONUS: int := 1
  const WILDCARD: char := '?'

  /** `match` in align.cpp, `similarity` in align2.cpp and align3.cpp.
      Coordinates are 1-based; row 0 or column 0 is the fatal error path. */
  function Similarity(s: seq<char>, t: seq<char>, row: int, col: int): (r: int)
    requires 1 <= row <= |s| && 1 <= col <= |t|
    ensures r == MATCH_BONUS <==> (s[row - 1] == t[col - 1] || s[row - 1] == WILDCARD || t[col - 1] == WILDCARD)
    ensures r == MATCH_BONUS || r == -MATCH_BONUS
  {
    if s[row - 1] == t[col - 1] || s[row - 1] == WILDCARD || t[col - 1] == WILDCARD then MATCH_BONUS
    else MATCH_BONUS * -1
  }

  /** The wildcard scores like an exact match against any symbol, on either side. */
  lemma WildcardMatchesAnything(s: seq<char>, t: seq<char>, row: int, col: int)
    requires 1 <= row <= |s| && 1 <= col <= |t|
    requires s[row - 1] == WILDCARD || t[col - 1] == WILDCARD
    ensures Similarity(s, t, row, col) == MATCH_BONUS
  {
  }

  /** Score of the North candidate: a gap in t, charged against the cell
      above. Row 0 or column 0 is the fatal error path. */
  function North(mat: array2<int>, row: int, col: int): (r: int)
    reads mat
    requires 1 <= row < mat.Length0 && 1 <= col < mat.Length1
    ensures r + GAP_PENALTY == mat[row - 1, col]
  {
    mat[row - 1, col] - GAP_PENALTY
  }

  /** Score of the West candidate: a gap in s, charged against the cell to
      the left. Row 0 or column 0 is the fatal error path. */
  function West(mat: array2<int>, row: int, col: int): (r: int)
    reads mat
    requires 1 <= row < mat.Length0 && 1 <= col < mat.Length1
    ensures r + GAP_PENALTY == mat[row, col - 1]
  {
    mat[row, col - 1] - GAP_PENALTY
  }

  /** Score of the NorthWest candidate: the diagonal cell gains the match
      bonus when s[row - 1] and t[col - 1] match (the wildcard matches
      anything) and loses it otherwise. */
  function NorthWest(mat: array2<int>, s: seq<char>, t: seq<char>, row: int, col: int): (r: int)
    reads mat
    requires 1 <= row < mat.Length0 && 1 <= col < mat.Length1
    requires row <= |s| && col <= |t|
    ensures r == mat[row - 1, col - 1] + MATCH_BONUS <==> (s[row - 1] == t[col - 1] || s[row - 1] == WILDCARD || t[col - 1] == WILDCARD)
    ensures r == mat[row - 1, col - 1] + MATCH_BONUS || r == mat[row - 1, col - 1] - MATCH_BONUS
  {
    mat[row - 1, col - 1] + Similarity(s, t, row, col)
  }

  /** The three candidates read only the three neighbour cells: two
      matrices that agree there give the same candidates, whatever else
      differs. This is what lets any schedule compute a cell once its
      neighbours are final. */
  lemma CandidatesReadNeighbours(m1: array2<int>, m2: array2<int>, s: seq<char>, t: seq<char>, row: int, col: int)
    requires 1 <= row < m1.Length0 && 1 <= col < m1.Length1
    requires 1 <= row < m2.Length0 && 1 <= col < m2.Length1
    requires row <= |s| && col <= |t|
    requires m1[row - 1, col] == m2[row - 1, col] && m1[row - 1, col - 1] == m2[row - 1, col - 1]
    requires m1[row, col - 1] == m2[row, col - 1]
    ensures North(m1, row, col) == North(m2, row, col)
    ensures NorthWest(m1, s, t, row, col) == NorthWest(m2, s, t, row, col)
    ensures West(m1, row, col) == West(m2, row, col)
  {
  }

  /** k is the position std::max_element returns: a largest element, and the
      first one among equals. */
  ghost predicate IsFirstMax(xs: seq<int>, k: int) {
    && 0 <= k < |xs|
    && (forall i :: 0 <= i < |xs| ==> xs[i] <= xs[k])
    && (forall i :: 0 <= i < k ==> xs[i] < xs[k])
  }

  /** std::max_element as a left-to-right scan: a later element replaces the
      current best only when it is strictly larger. */
  function MaxElement(xs: seq<int>): (k: nat)
    requires |xs| > 0
    ensures IsFirstMax(xs, k)
    decreases |xs|
  {
    if |xs| == 1 then 0
    else
      var k := MaxElement(xs[..|xs| - 1]);
      if xs[k] < xs[|xs| - 1] then |xs| - 1 else k
  }

  /** The three cells (row, col) depends on: north, northwest and west. */
  ghost predicate Dependency(p: (int, int), row: int, col: int) {
    row - 1 <= p.0 <= row && col - 1 <= p.1 <= col && p.0 + p.1 < row + col
  }

  /** `source`: index 0, 1, 2 (North, NW, West) to the predecessor coordinate.
      Any other index is reported and leaves the coordinate unchanged. */
  function Source(idx: int, row: int, col: int): (p: (int, int))
    requires row >= 1 && col >= 1
    ensures idx == 0 ==> p == (row - 1, col)
    ensures idx == 1 ==> p == (row - 1, col - 1)
    ensures idx == 2 ==> p == (row, col - 1)
    ensures 0 <= idx <= 2 ==> Dependency(p, row, col)
    ensures !(0 <= idx <= 2) ==> p == (row, col)
  {
    match idx
    case 0 => (row - 1, col)
    case 1 => (row - 1, col - 1)
    case 2 => (row, col - 1)
    case _ => (row, col)
  }

  /** What one call of SmithWaterman stores in a cell. */
  datatype Cell = Cell(score: int, pred: (int, int))

  /** The cell rule, given the three candidate scores: the score is
      max(0, north, northWest, west); the predecessor is the cell of the FIRST
      largest candidate in the order North, NorthWest, West, and it is kept
      even when the score is clamped to 0. */
  function Recurrence(north: int, northWest: int, west: int, row: int, col: int): (c: Cell)
    requires row >= 1 && col >= 1
    ensures c.score >= 0 && c.score >= north && c.score >= northWest && c.score >= west
    ensures c.score == 0 || c.score == north || c.score == northWest || c.score == west
    ensures c.pred == (row - 1, col) <==> north >= northWest && north >= west
    ensures c.pred == (row - 1, col - 1) <==> north < northWest && northWest >= west
    ensures c.pred == (row, col - 1) <==> north < west && northWest < west
    ensures Dependency(c.pred, row, col)
  {
    var scores := [north, northWest, west];
    var top := MaxElement(scores);
    assert scores[0] == north && scores[1] == northWest && scores[2] == west;
    Cell(if scores[top] < 0 then 0 else scores[top], Source(top, row, col))
  }
}
