# Smith-Waterman local alignment: three fill schedules

This project models alignsw, a C++ program that scores the local alignment of a
sequence `s` against an unknown `t` with the Smith-Waterman recurrence. It has
three versions, and each fills the same pair of matrices in a different order:

- `align.cpp` fills the score matrix in row-major order.
- `align2.cpp` drives the fill from a FIFO "ready queue". Computing a cell pushes
  the cells it unblocks onto the queue.
- `align3.cpp` fills row by row and splits each row into one, two or four column
  chunks.

After the fill, `maxScore` scans the score matrix for the maximum. In
`align2.cpp` and `align3.cpp` it reports the last cell holding it; the
`align.cpp` version reports (0, 0) when no interior cell beats the corner (see
Findings). `align2.cpp` and `align3.cpp` then follow the predecessor matrix back
from that cell (`traceback`).

The scoring rule, as the code writes it, is in module `Scoring`:
- the gap penalty is 2;
- a match scores +1 and a mismatch -1, and `?` matches anything;
- the candidates are North (cell above − 2), NorthWest (diagonal + similarity)
  and West (cell to the left − 2);
- the winner is the first maximum in that order, as `std::max_element` picks it;
- a negative winner is clamped to 0, and the predecessor still points at the
  winning neighbour.

The ghost function `Engine.SW` gives the finished value of every cell. The `Fill`
of each schedule proves that both matrices equal `SW` everywhere, so the three
schedules produce the same matrices. The queue schedule also proves that every
dequeued cell finds its three neighbours final. It proves that the queue drains,
and that it drains after exactly |s|·|t| + (|s|−1)·(|t|−1) dequeues.

Modules:
- `Scoring`: the cell rule.
- `Engine`: the matrices, `SW`, the in-place cell update and the initialisation.
- `MaxScore`: both versions of `maxScore`.
- `Traceback`: the traceback walk.
- `RowMajor`: `align.cpp`.
- `ReadyQueue`: `align2.cpp`.
- `RowChunk`: `align3.cpp`.

The uBLAS matrices are `array2`. Sequences are `seq<char>`.

Three points where the model follows the code, not the usual statement of the algorithm:
- In the textbook recurrence, a cell clamped to 0 has no predecessor, and the
  traceback stops there. The code keeps the winning neighbour as the
  predecessor (`Scoring.Recurrence`).
- The chunks of one `align3.cpp` row run in parallel threads, and a chunk reads
  the West neighbour of its first cell from the chunk before it. The model runs
  the chunks of a row one after another, left to right. It does not model the
  data race.
- A design that computes every interior cell exactly once does not describe
  `align2.cpp`: its push rule computes every cell of columns 2.. above the
  last row twice (`ReadyQueue.TotalDequeues`). The model keeps the duplicates,
  and `Engine.CellAtNeighboursAgree` shows the second computation rewrites the
  same values.

## Model

Below, n is the length of s and m the length of t.

| member | source | states |
|---|---|---|
| `Scoring.Similarity` | align2.cpp:140-154 | The score is +1 exactly when the two symbols are equal or either is the wildcard `?`, and -1 otherwise (the same rule as `match`, align.cpp:100-114) |
| `Scoring.WildcardMatchesAnything` | align.cpp:110-111 | A wildcard on either side scores as a match against any symbol |
| `Scoring.MaxElement` | align.cpp:184-185 | The index is a largest element and the first one among equals, as `std::max_element` returns it |
| `Scoring.Source` | align.cpp:141-164 | Indices 0, 1 and 2 give the north, northwest and west neighbour, each a dependency of the cell; any other index leaves the coordinate unchanged |
| `Scoring.North` | align.cpp:68-78 | The North candidate is the score of the cell above minus the gap penalty 2; row 0 or column 0 is excluded, as the source exits there |
| `Scoring.West` | align.cpp:84-94 | The West candidate is the score of the cell to the left minus the gap penalty 2; row 0 or column 0 is excluded |
| `Scoring.NorthWest` | align.cpp:120-135 | The NorthWest candidate is the diagonal score plus 1 exactly when the two symbols match (or either is `?`), and the diagonal score minus 1 otherwise |
| `Scoring.CandidatesReadNeighbours` | align.cpp:68-135 | The three candidates depend only on the north, northwest and west cells: matrices that agree there give equal candidates |
| `Scoring.Recurrence` | align.cpp:179-192 | The score is max(0, north, northWest, west). The predecessor is north iff north is a largest candidate, northwest iff it beats north and is at least west, and west iff it beats both; it is not reset when the score is clamped |
| `Engine.SW` | align.cpp:169-193 | Every finished score is non-negative and never the NOT_READY mark; every interior predecessor is one of the three neighbours |
| `Engine.SWOriginPredecessor` | align2.cpp:306-309 | A finished predecessor is (0, 0) only on row 0, on column 0 or at (1, 1), so the traceback loop stops only there |
| `Engine.CellAtNeighboursAgree` | align.cpp:179-192 | When the three neighbours hold their finished scores, updating the cell writes its finished score and predecessor; recomputing a cell is idempotent |
| `Engine.SmithWaterman` | align.cpp:169-193 | Writes the cell rule's score and predecessor for (row, col) and changes no other cell |
| `Engine.InitMatrices` | align.cpp:245-258 | New zeroed matrices of n + 1 by m + 1 cells, with every interior score marked NOT_READY (-999) |
| `MaxScore.ReverseScan` | align.cpp:208-215 | After the reverse scan, the best is at least its start value and bounds every interior cell. If it never moved, the coordinates are the starting ones; otherwise they are the lowermost, then rightmost, interior cell holding the best |
| `MaxScore.MaxScoreFromCorner` | align.cpp:200-218 | The align.cpp `maxScore`: the best bounds the corner and the interior. The coordinates are (0, 0) exactly when no interior cell beats the corner; otherwise they are the last holder of the best |
| `MaxScore.MaxScore` | align2.cpp:262-280 | The align2.cpp/align3.cpp `maxScore`: the best is non-negative and bounds the interior. With no positive cell the coordinates are the corner; otherwise they are the last holder of the best |
| `MaxScore.FinishedBound` | align.cpp:208-215 | On finished matrices, a bound on the interior cells bounds every SW score |
| `MaxScore.FinishedLastHolder` | align.cpp:208-215 | On finished matrices, the last holder of a score is the lowermost, then rightmost, cell whose SW score it is |
| `RowMajor.Fill` | align.cpp:245-266 | After the row-major loops, both matrices equal SW everywhere (the loop body also proves that before each update the three neighbours are no longer NOT_READY) |
| `RowMajor.CornerMaximumLosesItsCell` | align.cpp:204-206 | For s = t = "A", after the row-major fill, the align.cpp `maxScore` reports score 1 at (0, 0), and that cell holds 0 |
| `RowMajor.Align` | align.cpp:224-280 | The `main` result: at least the corner's SW score and at least every interior SW score. The coordinates are (0, 0) iff the best is the corner's score; otherwise they name the last cell with that SW score |
| `Traceback.FinishedPointsBack` | align2.cpp:239-240 | Every finished stored predecessor is (0, 0) or a cell no further down or right and strictly closer to the origin |
| `Traceback.Reversed` | align2.cpp:311 | The result has the same length with the elements in the opposite order |
| `Traceback.Traceback` | align2.cpp:300-316 | The route ends at the starting cell and stays in the matrix. Each entry after the first is preceded by its stored predecessor; no entry but the last is (0, 0); the first entry's stored predecessor is (0, 0); when the start is not (0, 0), the route has at most row + col entries (from (0, 0) it is the single entry (0, 0)) |
| `Traceback.FinishedRoute` | align3.cpp:317-333 | On finished matrices, a traceback route follows the SW predecessors and starts on row 0, on column 0 or at (1, 1) |
| `ReadyQueue.EnqueuedAsWritten` | align2.cpp:242-252 | The push rule as written: the two-clause east test is just col != m; a column-1 cell above the last row also pushes its south neighbour and its east neighbour again |
| `ReadyQueue.OneColumnLeavesGrid` | align2.cpp:248-251 | With one column, the rule as written pushes (row, 2), outside the matrix, and every east push from there stays outside |
| `ReadyQueue.Enqueued` | align2.cpp:242-252 | The guarded rule. Every pushed cell is in the matrix on the next anti-diagonal. The east neighbour is pushed iff it exists, and the south neighbour iff the cell starts a row above the last. With two or more columns it equals the rule as written |
| `ReadyQueue.PendingAppend` | align2.cpp:368-379 | The pending work of a queue is additive over concatenation |
| `ReadyQueue.WorkUnfolds` | align2.cpp:242-252 | Dequeuing a cell and pushing its successors lowers the pending work by exactly one |
| `ReadyQueue.WorkFromRow` | align2.cpp:368-379 | Closed form of the dequeues owed to the first cell of row r: (n − r)(2m − 1) + m |
| `ReadyQueue.TotalDequeues` | align2.cpp:368-379 | Seeding (1, 1) leads to n·m + (n−1)·(m−1) dequeues: the duplicated east push makes every cell of columns 2.. above the last row run twice |
| `ReadyQueue.QueueInvInit` | align2.cpp:368 | The queue holding only the seed (1, 1), with nothing computed, meets the queue invariant |
| `ReadyQueue.NextWellFormed` | align2.cpp:369-378 | A dequeue and its pushes keep the queue in the matrix, sorted by anti-diagonal, and within two consecutive anti-diagonals |
| `ReadyQueue.NextBand` | align2.cpp:369-378 | After a dequeue, every queued cell lies on the old front's anti-diagonal or on the next one |
| `ReadyQueue.NextSorted` | align2.cpp:369-378 | After a dequeue, the queue is still sorted by anti-diagonal |
| `ReadyQueue.NextFront` | align2.cpp:369-378 | The new front lies on the old front's anti-diagonal or the next, and on the next only if no other cell of the old front's anti-diagonal was queued |
| `ReadyQueue.NextKeeps` | align2.cpp:371-376 | A dequeue removes only the front: every other queued cell is still queued |
| `ReadyQueue.StepClosed` | align2.cpp:242-252 | Computing the front keeps the closure: every cell whose pusher is computed is computed or queued |
| `ReadyQueue.StepFrontier` | align2.cpp:369-378 | Computing the front keeps the frontier: every earlier anti-diagonal is computed, and the front's anti-diagonal is computed or queued |
| `ReadyQueue.QueueStep` | align2.cpp:369-378 | When a cell is dequeued, every earlier anti-diagonal is computed, and the invariant holds after the step |
| `ReadyQueue.DrainedAt` | align2.cpp:369 | Once the queue is empty, every cell of the matrix has been computed |
| `ReadyQueue.Drained` | align2.cpp:369 | Once the queue is empty, the computed cells are exactly the cells of the matrix |
| `ReadyQueue.PendingStep` | align2.cpp:369-378 | A dequeue keeps the queue in the matrix and lowers the pending work by one, so the loop terminates |
| `ReadyQueue.NeighboursDone` | align2.cpp:224-227 | When every earlier anti-diagonal is computed, the north, northwest and west neighbours are computed or on the boundary |
| `ReadyQueue.DequeuedIsReady` | align2.cpp:369-378 | A dequeued cell finds its three neighbours no longer NOT_READY, and the cell rule gives it its finished value |
| `ReadyQueue.SmithWatermanEnqueue` | align2.cpp:211-255 | The align2.cpp `SmithWaterman` with the guarded push rule: writes the cell rule for (row, col), changes no other cell, and appends the guarded rule's cells (`Enqueued`, equal to the source's rule when m ≥ 2) to the queue |
| `ReadyQueue.PopAndCompute` | align2.cpp:369-379 | One iteration, with the guarded push rule: the queue becomes the tail plus the cells `Enqueued` pushes, and the computed cells, now including the old front, hold their finished values; every other cell is unchanged, so uncomputed cells keep the NOT_READY mark |
| `ReadyQueue.Fill` | align2.cpp:352-379 | With the guarded push rule and n, m ≥ 1: the ready-queue loop drains, both matrices then equal SW everywhere, and the loop performs n·m + (n−1)·(m−1) dequeues |
| `ReadyQueue.Align` | align2.cpp:321-398 | With the guarded push rule and n, m ≥ 1, the `main` result: the best is non-negative and bounds every SW score, named at its last cell (the corner when no score is positive). The traceback route follows SW predecessors back from that cell and starts on row 0, on column 0 or at (1, 1) |
| `ReadyQueue.CornerMaximumKeptByMaxScore` | align2.cpp:266-268 | For s = t = "A", after the ready-queue fill, the align2.cpp `maxScore` reports score 1 at (1, 1), the cell that holds it |
| `RowChunk.ChunkBounds` | align3.cpp:388-432 | Row i gets 1, 2 or 4 chunks as i % 3 is 1, 2 or 0. The chunks tile the columns 1..m contiguously, and each may be empty |
| `RowChunk.TilesPartition` | align3.cpp:399-424 | The chunks of a tiling cover exactly its range, and no column lies in two chunks |
| `RowChunk.TilesStartsAfter` | align3.cpp:399-424 | No chunk of a tiling reaches before its start |
| `RowChunk.TilesEndBefore` | align3.cpp:399-424 | No chunk of a tiling reaches past its end |
| `RowChunk.ChunkBoundsPartition` | align3.cpp:388-432 | The chunks of every row cover exactly the columns 1..m, and each column lies in one chunk |
| `RowChunk.RowChunkSW` | align3.cpp:282-296 | Every cell of the chunk holds the cell rule of its current neighbours, and every cell outside the chunk is unchanged |
| `RowChunk.ConsistentRunAgrees` | align3.cpp:293-295 | Given the row above finished and a finished west end, a left-to-right run of consistent cells is finished |
| `RowChunk.Fill` | align3.cpp:388-437 | After the row loop, with each row's chunks run left to right, both matrices equal SW everywhere |
| `RowChunk.Align` | align3.cpp:338-458 | The same `main` result as the ready-queue program, with no restriction on the sequence lengths |

## Left out

- File input (`importSeqFile`), console output, the print helpers, the timer and the command-line checks are not modelled. The sequences are parameters, and traceback returns its route instead of printing it.
- Threads, the queue mutex and `threadedSW` are not modelled. In align2.cpp every thread is joined right after it starts, so the loop is sequential.
- The row-chunk threads (`th_rowChunkSW`) are not modelled. RowChunk.Fill: the model runs a row's chunks one after another, left to right. It does not capture the data race in the source, where a chunk may read its first cell's West neighbour before the chunk to its left has written it.
- `queuetest.cpp` is a standalone queue experiment and is not part of this model.
- The `exit(-1)` paths for row or column 0 in North, West, NorthWest, similarity, source, SmithWaterman, and the same-row check of rowChunkSW, are modelled as preconditions. No caller in the three programs violates them.
- ReadyQueue.Fill: requires |s| ≥ 1 and |t| ≥ 1. With an empty sequence, the source computes the seed (1, 1), which lies outside the matrix.
- ReadyQueue.Align: requires |s| ≥ 1 and |t| ≥ 1, for the same reason as ReadyQueue.Fill.
- ReadyQueue.Fill: uses the guarded push rule (`Enqueued`). With one column and |s| ≥ 2 the rule as written pushes cells outside the matrix: the modelled queue never drains, and the source then reads and writes past the matrix (see Findings).
- ReadyQueue.SmithWatermanEnqueue: pushes the guarded rule's cells (`Enqueued`), not the rule as written; they differ only when |t| = 1, where the source also pushes (row, 2).
- ReadyQueue.PopAndCompute: one loop iteration with the guarded push rule, as in ReadyQueue.SmithWatermanEnqueue.
- ReadyQueue.Align: runs ReadyQueue.Fill, so it carries the guarded push rule too.
- Integer width: C++ `int` overflow is not modelled for scores and coordinates. Scores are at most min(|s|, |t|) and coordinates at most the sequence lengths.
- RowChunk.ChunkBounds: computes the cut point 3·m/4 in unbounded integers. align3.cpp:421 and :423 compute `(int) t.size() * 3/4`, and the product 3·|t| overflows 32-bit `int` once |t| ≥ 715,827,883; the `(int) t.size()` casts at lines 401-424 also truncate past 2^31 − 1. The model matches the source only for |t| ≤ 715,827,882.
- Matrices are uBLAS `matrix` objects in the source and `array2` here; aliasing between the two matrices does not arise.

## Findings

| source | as written | input that shows it | evidently intended | confidence | as-written member | corrected member |
|---|---|---|---|---|---|---|
| align2.cpp:248-252 | A cell of column 1 above the last row pushes its east neighbour (row, 2) with no test that column 2 exists | t of length 1 and s of length 2: (1, 1) pushes (1, 2), which lies outside the matrix; from there each cell pushes its east neighbour again | Push the east neighbour only when col != m, as the first push does | not executed | `ReadyQueue.OneColumnLeavesGrid` | `ReadyQueue.Enqueued` |
| align.cpp:204-215 | The running maximum starts at the corner's score with coordinates (0, 0), and only a strictly greater cell replaces it | s = t = "A": the final matrix is [[0, 0], [0, 1]]; the result is (1, [0, 0]), and cell (0, 0) holds 0 | Report the coordinates of a cell that holds the maximum, as align2.cpp and align3.cpp do | not executed | `RowMajor.CornerMaximumLosesItsCell` | `ReadyQueue.CornerMaximumKeptByMaxScore` |
