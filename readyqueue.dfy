/** align2.cpp: the ready-queue schedule. `main` seeds a FIFO queue with
    (1, 1) and pops it until it is empty; each call of `SmithWaterman`
    computes one cell and pushes the cells it unblocks. The thread spawned
    for each cell is joined at once, so the loop is sequential and the global
    queue becomes an explicit sequence. */
module ReadyQueue {
  import opened Scoring
  import opened Engine
  import opened MaxScore
  import opened Traceback

  /** Anti-diagonal index: every dependency of a cell has a smaller one. */
  function Diag(p: (int, int)): int {
    p.0 + p.1
  }

  /** The cells pushed after computing (row, col), as align2.cpp writes the
      rule: its two-clause east test reduces to col != m, and a cell of
      column 1 off the last row also pushes its south neighbour and then its
      east neighbour once more. */
  function EnqueuedAsWritten(row: int, col: int, n: int, m: int): (q: seq<(int, int)>)
    ensures q == (if col != m then [(row, col + 1)] else [])
                 + (if col == 1 && row != n then [(row + 1, 1), (row, col + 1)] else [])
  {
    (if (row == n && col != m) || (row != n && col != m) then [(row, col + 1)] else [])
    + (if col == 1 && row != n then [(row + 1, col), (row, col + 1)] else [])
  }

  /** With a single column, a cell of column 1 above the last row pushes
      (row, 2), outside the matrix, and every cell from column 2 on pushes
      its east neighbour, again outside the matrix. */
  lemma OneColumnLeavesGrid(row: int, n: int, col: int)
    requires 1 <= row < n && col >= 2
    ensures (row, 2) in EnqueuedAsWritten(row, 1, n, 1) && !InRange(n, 1, (row, 2))
    ensures (row, col + 1) in EnqueuedAsWritten(row, col, n, 1) && !InRange(n, 1, (row, col + 1))
  {
  }

  /** The push rule with the second east push guarded by col != m, as the
      first one is. Every pushed cell lies in the matrix on the next
      anti-diagonal; the east neighbour is pushed exactly when it exists, the
      south neighbour exactly when (row, col) starts a row above the last;
      with two or more columns this is the rule as written. */
  function Enqueued(row: int, col: int, n: int, m: int): (q: seq<(int, int)>)
    requires InRange(n, m, (row, col))
    ensures forall k :: 0 <= k < |q| ==> InRange(n, m, q[k]) && Diag(q[k]) == row + col + 1
    ensures (row, col + 1) in q <==> col < m
    ensures (row + 1, 1) in q <==> col == 1 && row < n
    ensures m >= 2 ==> q == EnqueuedAsWritten(row, col, n, m)
  {
    (if col != m then [(row, col + 1)] else [])
    + (if col == 1 && row != n then [(row + 1, col)] + (if col != m then [(row, col + 1)] else []) else [])
  }

  /** How many cells are dequeued, in all, because (r, c) is in the queue:
      itself and everything it pushes, transitively. */
  function Work(n: int, m: int, r: int, c: int): nat
    requires InRange(n, m, (r, c))
    decreases n - r
  {
    if c >= 2 then m - c + 1
    else if r == n then m
    else 2 * m - 1 + Work(n, m, r + 1, 1)
  }

  /** Total Work of the cells in the queue; it drops by one per dequeue. */
  function Pending(n: int, m: int, q: seq<(int, int)>): nat
    requires forall k :: 0 <= k < |q| ==> InRange(n, m, q[k])
  {
    if q == [] then 0 else Work(n, m, q[0].0, q[0].1) + Pending(n, m, q[1..])
  }

  lemma {:induction false} PendingAppend(n: int, m: int, a: seq<(int, int)>, b: seq<(int, int)>)
    requires forall k :: 0 <= k < |a| ==> InRange(n, m, a[k])
    requires forall k :: 0 <= k < |b| ==> InRange(n, m, b[k])
    ensures Pending(n, m, a + b) == Pending(n, m, a) + Pending(n, m, b)
  {
    if a != [] {
      assert (a + b)[0] == a[0];
      assert (a + b)[1..] == a[1..] + b;
      PendingAppend(n, m, a[1..], b);
      assert Pending(n, m, a) == Work(n, m, a[0].0, a[0].1) + Pending(n, m, a[1..]);
    } else {
      assert a + b == b;
    }
  }

  /** Dequeuing (r, c) and pushing its successors costs exactly one unit. */
  lemma {:induction false} WorkUnfolds(n: int, m: int, r: int, c: int)
    requires InRange(n, m, (r, c))
    ensures Work(n, m, r, c) == 1 + Pending(n, m, Enqueued(r, c, n, m))
  {
    var q := Enqueued(r, c, n, m);
    if c != m && c == 1 && r != n {
      assert q == [(r, 2), (r + 1, 1), (r, 2)];
      assert q[1..] == [(r + 1, 1), (r, 2)];
      assert q[1..][1..] == [(r, 2)];
      assert Pending(n, m, [(r, 2)]) == m - 1;
      assert Pending(n, m, [(r + 1, 1), (r, 2)]) == Work(n, m, r + 1, 1) + m - 1;
    } else if c == 1 && r != n {
      assert q == [(r + 1, 1)];
    } else if c != m {
      assert q == [(r, c + 1)];
    }
  }

  /** The closed form of Work for the first cell of row r. */
  lemma {:induction false} WorkFromRow(n: int, m: int, r: int)
    requires 1 <= r <= n && m >= 1
    ensures Work(n, m, r, 1) == (n - r) * (2 * m - 1) + m
    decreases n - r
  {
    if r < n {
      WorkFromRow(n, m, r + 1);
      assert (n - r) * (2 * m - 1) == (n - r - 1) * (2 * m - 1) + (2 * m - 1);
    }
  }

  /** Because of the duplicated east push, the fill dequeues |s| * |t| +
      (|s| - 1) * (|t| - 1) cells: every cell of columns 2.. above the last row
      is computed twice. */
  lemma {:induction false} TotalDequeues(n: int, m: int)
    requires n >= 1 && m >= 1
    ensures Work(n, m, 1, 1) == n * m + (n - 1) * (m - 1)
  {
    WorkFromRow(n, m, 1);
    assert (n - 1) * (2 * m - 1) + m == n * m + (n - 1) * (m - 1);
  }

  /** The cell whose computation pushes (a, b): its west neighbour, or for
      column 1 the cell above. */
  function Pusher(p: (int, int)): (int, int) {
    if p.1 >= 2 then (p.0, p.1 - 1) else (p.0 - 1, 1)
  }

  /** The queued cells are in the matrix, sorted by anti-diagonal, and span
      at most two consecutive anti-diagonals. */
  ghost predicate WellFormed(n: int, m: int, rq: seq<(int, int)>) {
    && (forall k :: 0 <= k < |rq| ==> InRange(n, m, rq[k]))
    && (forall a, b :: 0 <= a < b < |rq| ==> Diag(rq[a]) <= Diag(rq[b]))
    && (forall k :: 0 <= k < |rq| ==> Diag(rq[k]) <= Diag(rq[0]) + 1)
  }

  /** Every cell of the matrix on an anti-diagonal before d is computed. */
  ghost predicate DoneBelow(n: int, m: int, done: set<(int, int)>, d: int) {
    forall p :: InRange(n, m, p) && Diag(p) < d ==> p in done
  }

  /** Every cell on an earlier anti-diagonal than the front is computed, and
      every cell on the front's anti-diagonal is computed or queued. */
  ghost predicate Frontier(n: int, m: int, rq: seq<(int, int)>, done: set<(int, int)>)
    requires rq != []
  {
    && DoneBelow(n, m, done, Diag(rq[0]))
    && (forall p :: InRange(n, m, p) && Diag(p) == Diag(rq[0]) ==> p in done || p in rq)
  }

  /** (1, 1) is computed or queued, and every other cell whose pusher is
      computed is itself computed or queued. */
  ghost predicate Closed(n: int, m: int, rq: seq<(int, int)>, done: set<(int, int)>) {
    && ((1, 1) in done || (1, 1) in rq)
    && (forall p :: InRange(n, m, p) && p != (1, 1) && Pusher(p) in done ==> p in done || p in rq)
  }

  /** The state of the ready queue between two dequeues, given the set of
      computed cells. */
  ghost predicate QueueInv(n: int, m: int, rq: seq<(int, int)>, done: set<(int, int)>) {
    && (forall p :: p in done ==> InRange(n, m, p))
    && WellFormed(n, m, rq)
    && (rq != [] ==> Frontier(n, m, rq, done))
    && Closed(n, m, rq, done)
  }

  /** The queue after one dequeue of the front and the pushes that follow. */
  function Next(n: int, m: int, rq: seq<(int, int)>): seq<(int, int)>
    requires rq != [] && InRange(n, m, rq[0])
  {
    rq[1..] + Enqueued(rq[0].0, rq[0].1, n, m)
  }

  lemma QueueInvInit(n: int, m: int)
    requires n >= 1 && m >= 1
    ensures QueueInv(n, m, [(1, 1)], {})
  {
  }

  /** Pushing cells of the next anti-diagonal to the back keeps the queue
      in the matrix, sorted, and within two anti-diagonals. */
  lemma {:induction false} NextWellFormed(n: int, m: int, rq: seq<(int, int)>)
    requires WellFormed(n, m, rq) && rq != []
    ensures WellFormed(n, m, Next(n, m, rq))
  {
    NextBand(n, m, rq);
    NextSorted(n, m, rq);
    if Next(n, m, rq) != [] {
      NextFront(n, m, rq);
    }
  }

  /** Every cell of Next is in the matrix, on the old front's anti-diagonal
      or the next. */
  lemma {:induction false} NextBand(n: int, m: int, rq: seq<(int, int)>)
    requires WellFormed(n, m, rq) && rq != []
    ensures forall k :: 0 <= k < |Next(n, m, rq)| ==>
              InRange(n, m, Next(n, m, rq)[k]) && Diag(rq[0]) <= Diag(Next(n, m, rq)[k]) <= Diag(rq[0]) + 1
  {
    var rest := rq[1..];
    var pushed := Enqueued(rq[0].0, rq[0].1, n, m);
    var rq' := Next(n, m, rq);
    forall k | 0 <= k < |rq'| ensures InRange(n, m, rq'[k]) && Diag(rq[0]) <= Diag(rq'[k]) <= Diag(rq[0]) + 1 {
      if k < |rest| {
        assert rq'[k] == rq[k + 1];
      } else {
        assert rq'[k] == pushed[k - |rest|];
      }
    }
  }

  /** Next is sorted by anti-diagonal. */
  lemma {:induction false} NextSorted(n: int, m: int, rq: seq<(int, int)>)
    requires WellFormed(n, m, rq) && rq != []
    ensures forall a, b :: 0 <= a < b < |Next(n, m, rq)| ==> Diag(Next(n, m, rq)[a]) <= Diag(Next(n, m, rq)[b])
  {
    var rest := rq[1..];
    var pushed := Enqueued(rq[0].0, rq[0].1, n, m);
    var rq' := Next(n, m, rq);
    forall a, b | 0 <= a < b < |rq'| ensures Diag(rq'[a]) <= Diag(rq'[b]) {
      if b < |rest| {
        assert rq'[a] == rq[a + 1] && rq'[b] == rq[b + 1];
      } else if a >= |rest| {
        assert rq'[a] == pushed[a - |rest|] && rq'[b] == pushed[b - |rest|];
      } else {
        assert rq'[a] == rq[a + 1] && rq'[b] == pushed[b - |rest|];
      }
    }
  }

  /** The new front is on the old front's anti-diagonal or the next, and on
      the next only if no other cell of the old front's is queued. */
  lemma {:induction false} NextFront(n: int, m: int, rq: seq<(int, int)>)
    requires WellFormed(n, m, rq) && rq != [] && Next(n, m, rq) != []
    ensures Diag(rq[0]) <= Diag(Next(n, m, rq)[0]) <= Diag(rq[0]) + 1
    ensures Diag(Next(n, m, rq)[0]) > Diag(rq[0]) ==> forall k :: 1 <= k < |rq| ==> Diag(rq[k]) > Diag(rq[0])
  {
    var d := Diag(rq[0]);
    var rq' := Next(n, m, rq);
    if |rq| > 1 {
      assert rq'[0] == rq[1];
      forall k | 1 <= k < |rq| ensures Diag(rq[1]) <= Diag(rq[k]) {
        if k > 1 { assert Diag(rq[1]) <= Diag(rq[k]); }
      }
    } else {
      assert rq'[0] == Enqueued(rq[0].0, rq[0].1, n, m)[0];
    }
  }

  /** Every queued cell other than the front is still queued. */
  lemma {:induction false} NextKeeps(n: int, m: int, rq: seq<(int, int)>)
    requires rq != [] && InRange(n, m, rq[0])
    ensures forall q :: q in rq && q != rq[0] ==> q in Next(n, m, rq)
  {
    forall q | q in rq && q != rq[0] ensures q in Next(n, m, rq) {
      var k :| 0 <= k < |rq| && rq[k] == q;
      assert Next(n, m, rq)[k - 1] == q;
    }
  }

  /** Computing the front keeps the closure: the cells whose pusher it is are
      exactly the ones it pushes. */
  lemma StepClosed(n: int, m: int, rq: seq<(int, int)>, done: set<(int, int)>)
    requires rq != [] && InRange(n, m, rq[0]) && Closed(n, m, rq, done)
    requires forall q :: q in rq && q != rq[0] ==> q in Next(n, m, rq)
    ensures Closed(n, m, Next(n, m, rq), done + {rq[0]})
  {
    var p := rq[0];
    var pushed := Enqueued(p.0, p.1, n, m);
    var rq' := Next(n, m, rq);
    forall q | InRange(n, m, q) && q != (1, 1) && Pusher(q) in done + {p}
      ensures q in done + {p} || q in rq'
    {
      if Pusher(q) == p && p !in done {
        if q.1 >= 2 {
          assert q == (p.0, p.1 + 1);
        } else {
          assert q == (p.0 + 1, 1);
        }
        assert q in pushed;
        assert rq'[|rq| - 1 + IndexOf(pushed, q)] == q;
      }
    }
  }

  /** Position of an element in a sequence. */
  function IndexOf(xs: seq<(int, int)>, x: (int, int)): (k: nat)
    requires x in xs
    ensures k < |xs| && xs[k] == x
  {
    if xs[0] == x then 0 else 1 + IndexOf(xs[1..], x)
  }

  /** Computing the front keeps the frontier: when the front moves on to the
      next anti-diagonal, every cell of the old one is computed, and every
      cell of the new one has a computed pusher. */
  lemma StepFrontier(n: int, m: int, rq: seq<(int, int)>, done: set<(int, int)>)
    requires QueueInv(n, m, rq, done) && rq != []
    requires Next(n, m, rq) != []
    requires Diag(rq[0]) <= Diag(Next(n, m, rq)[0]) <= Diag(rq[0]) + 1
    requires Diag(Next(n, m, rq)[0]) > Diag(rq[0]) ==> forall k :: 1 <= k < |rq| ==> Diag(rq[k]) > Diag(rq[0])
    requires forall q :: q in rq && q != rq[0] ==> q in Next(n, m, rq)
    requires Closed(n, m, Next(n, m, rq), done + {rq[0]})
    ensures Frontier(n, m, Next(n, m, rq), done + {rq[0]})
  {
    var p := rq[0];
    var d := Diag(p);
    var rq' := Next(n, m, rq);
    var done' := done + {p};
    var d' := Diag(rq'[0]);
    assert Frontier(n, m, rq, done);
    forall q | q in rq && q != p ensures d' == d + 1 ==> Diag(q) > d {
      var k :| 0 <= k < |rq| && rq[k] == q;
    }
    forall q | InRange(n, m, q) && Diag(q) == d' ensures q in done' || q in rq' {
      if d' == d {
        if q !in done && q != p { assert q in rq; }
      } else {
        assert q != (1, 1);
        assert InRange(n, m, Pusher(q)) && Diag(Pusher(q)) == d;
      }
    }
  }

  /** Dequeuing the front p, computing it and pushing Enqueued(p) keeps the
      invariant. The front's dependencies lie on earlier anti-diagonals, so
      they are all computed when it is dequeued. */
  lemma QueueStep(n: int, m: int, rq: seq<(int, int)>, done: set<(int, int)>)
    requires QueueInv(n, m, rq, done) && rq != []
    ensures DoneBelow(n, m, done, Diag(rq[0]))
    ensures QueueInv(n, m, Next(n, m, rq), done + {rq[0]})
  {
    assert Frontier(n, m, rq, done);
    NextWellFormed(n, m, rq);
    NextKeeps(n, m, rq);
    StepClosed(n, m, rq, done);
    if Next(n, m, rq) != [] {
      NextFront(n, m, rq);
      StepFrontier(n, m, rq, done);
    }
  }

  /** With the queue empty, every cell of the matrix has been computed. */
  lemma {:induction false} DrainedAt(n: int, m: int, done: set<(int, int)>, p: (int, int))
    requires QueueInv(n, m, [], done) && InRange(n, m, p)
    ensures p in done
    decreases p.0, p.1
  {
    if p != (1, 1) {
      DrainedAt(n, m, done, Pusher(p));
    }
  }

  /** With the queue empty, the computed cells are exactly the matrix. */
  lemma {:induction false} Drained(n: int, m: int, done: set<(int, int)>)
    requires QueueInv(n, m, [], done)
    ensures forall p :: InRange(n, m, p) <==> p in done
  {
    forall p | InRange(n, m, p) ensures p in done {
      DrainedAt(n, m, done, p);
    }
  }

  /** `SmithWaterman` of align2.cpp: the cell update, then the pushes onto
      the ready queue (with the guarded rule). */
  method SmithWatermanEnqueue(smat: array2<int>, tmat: array2<(int, int)>, s: seq<char>, t: seq<char>,
                              row: int, col: int, rq: seq<(int, int)>) returns (rq': seq<(int, int)>)
    requires Shaped(smat, tmat, s, t)
    requires 1 <= row <= |s| && 1 <= col <= |t|
    modifies smat, tmat
    ensures smat[row, col] == old(CellAt(smat, s, t, row, col)).score
    ensures tmat[row, col] == old(CellAt(smat, s, t, row, col)).pred
    ensures forall i, j :: 0 <= i <= |s| && 0 <= j <= |t| && (i != row || j != col) ==>
              smat[i, j] == old(smat[i, j]) && tmat[i, j] == old(tmat[i, j])
    ensures rq' == rq + Enqueued(row, col, |s|, |t|)
  {
    SmithWaterman(smat, tmat, s, t, row, col);
    rq' := rq + Enqueued(row, col, |s|, |t|);
  }

  /** Each dequeue lowers the pending work by exactly one. */
  lemma {:induction false} PendingStep(n: int, m: int, rq: seq<(int, int)>)
    requires rq != [] && forall k :: 0 <= k < |rq| ==> InRange(n, m, rq[k])
    ensures forall k :: 0 <= k < |Next(n, m, rq)| ==> InRange(n, m, Next(n, m, rq)[k])
    ensures Pending(n, m, Next(n, m, rq)) + 1 == Pending(n, m, rq)
  {
    var pushed := Enqueued(rq[0].0, rq[0].1, n, m);
    assert forall k :: 0 <= k < |rq[1..]| ==> InRange(n, m, rq[1..][k]);
    WorkUnfolds(n, m, rq[0].0, rq[0].1);
    PendingAppend(n, m, rq[1..], pushed);
    var rq' := Next(n, m, rq);
    forall k | 0 <= k < |rq'| ensures InRange(n, m, rq'[k]) {
      if k < |rq| - 1 { assert rq'[k] == rq[k + 1]; } else { assert rq'[k] == pushed[k - |rq| + 1]; }
    }
  }

  /** Every computed cell and the boundary hold their finished values. */
  ghost predicate Computed(smat: array2<int>, tmat: array2<(int, int)>, s: seq<char>, t: seq<char>, done: set<(int, int)>)
    reads smat, tmat
    requires Shaped(smat, tmat, s, t)
  {
    forall a, b {:trigger Agrees(smat, tmat, s, t, a, b)} ::
      0 <= a <= |s| && 0 <= b <= |t| && (a == 0 || b == 0 || (a, b) in done) ==> Agrees(smat, tmat, s, t, a, b)
  }

  /** Every interior score cell that has not been computed still holds the
      NOT_READY mark. */
  ghost predicate NotReadyOutside(smat: array2<int>, done: set<(int, int)>)
    reads smat
  {
    forall a, b :: 1 <= a < smat.Length0 && 1 <= b < smat.Length1 && (a, b) !in done ==> smat[a, b] == NOT_READY
  }

  /** The three neighbours of a cell whose earlier anti-diagonals are
      computed are computed or on the boundary. */
  lemma {:induction false} NeighboursDone(n: int, m: int, done: set<(int, int)>, row: int, col: int)
    requires InRange(n, m, (row, col)) && DoneBelow(n, m, done, row + col)
    ensures row == 1 || (row - 1, col) in done
    ensures row == 1 || col == 1 || (row - 1, col - 1) in done
    ensures col == 1 || (row, col - 1) in done
  {
    assert row == 1 || (InRange(n, m, (row - 1, col)) && Diag((row - 1, col)) < row + col);
    assert row == 1 || col == 1 || (InRange(n, m, (row - 1, col - 1)) && Diag((row - 1, col - 1)) < row + col);
    assert col == 1 || (InRange(n, m, (row, col - 1)) && Diag((row, col - 1)) < row + col);
  }

  /** A dequeued cell whose earlier anti-diagonals are all computed finds its
      three neighbours computed, and the cell rule yields its finished
      value. */
  lemma {:induction false} DequeuedIsReady(smat: array2<int>, tmat: array2<(int, int)>, s: seq<char>, t: seq<char>,
                                           done: set<(int, int)>, row: int, col: int)
    requires Shaped(smat, tmat, s, t) && InRange(|s|, |t|, (row, col))
    requires Computed(smat, tmat, s, t, done) && DoneBelow(|s|, |t|, done, row + col)
    ensures Ready(smat, row, col) && CellAt(smat, s, t, row, col) == SW(s, t, row, col)
  {
    NeighboursDone(|s|, |t|, done, row, col);
    assert Agrees(smat, tmat, s, t, row - 1, col) && Agrees(smat, tmat, s, t, row - 1, col - 1) && Agrees(smat, tmat, s, t, row, col - 1);
    CellAtNeighboursAgree(smat, tmat, s, t, row, col);
  }

  /** One iteration of the loop of `main`: pop the front and compute it
      (`threadedSW` joins its thread at once). When every cell of an earlier
      anti-diagonal is computed, the front is ready and gets its finished
      value, and the queue becomes Next. */
  method PopAndCompute(smat: array2<int>, tmat: array2<(int, int)>, s: seq<char>, t: seq<char>,
                       rq: seq<(int, int)>, ghost done: set<(int, int)>) returns (rq': seq<(int, int)>)
    requires Shaped(smat, tmat, s, t) && rq != [] && InRange(|s|, |t|, rq[0])
    requires Computed(smat, tmat, s, t, done) && DoneBelow(|s|, |t|, done, Diag(rq[0]))
    requires NotReadyOutside(smat, done)
    modifies smat, tmat
    ensures rq' == Next(|s|, |t|, rq)
    ensures Computed(smat, tmat, s, t, done + {rq[0]})
    ensures NotReadyOutside(smat, done + {rq[0]})
    ensures forall a, b :: 0 <= a <= |s| && 0 <= b <= |t| && (a, b) != rq[0] ==>
              smat[a, b] == old(smat[a, b]) && tmat[a, b] == old(tmat[a, b])
  {
    var p := rq[0];
    var row, col := p.0, p.1;
    DequeuedIsReady(smat, tmat, s, t, done, row, col);
    label before:
    rq' := SmithWatermanEnqueue(smat, tmat, s, t, row, col, rq[1..]);
    forall a, b {:trigger Agrees(smat, tmat, s, t, a, b)} | 0 <= a <= |s| && 0 <= b <= |t| && (a == 0 || b == 0 || (a, b) in done + {p})
      ensures Agrees(smat, tmat, s, t, a, b)
    {
      if (a, b) != p {
        assert old@before(Agrees(smat, tmat, s, t, a, b));
      }
    }
  }

  /** The ready-queue loop of `main` in align2.cpp, with the guarded push
      rule: seed (1, 1), then pop the front and compute it until the queue is
      empty. Every dequeued cell finds its neighbours final, the finished
      matrices are SW everywhere, and the loop performs
      |s| * |t| + (|s| - 1) * (|t| - 1) dequeues. */
  method Fill(s: seq<char>, t: seq<char>) returns (smat: array2<int>, tmat: array2<(int, int)>, ghost dequeues: nat)
    requires |s| >= 1 && |t| >= 1
    ensures fresh(smat) && fresh(tmat) && Shaped(smat, tmat, s, t)
    ensures forall i, j :: 0 <= i <= |s| && 0 <= j <= |t| ==> Agrees(smat, tmat, s, t, i, j)
    ensures dequeues == |s| * |t| + (|s| - 1) * (|t| - 1)
  {
    var n, m := |s|, |t|;
    smat, tmat := InitMatrices(s, t);
    var rq := [(1, 1)];
    ghost var done: set<(int, int)> := {};
    dequeues := 0;
    QueueInvInit(n, m);
    while rq != []
      invariant QueueInv(n, m, rq, done) && Computed(smat, tmat, s, t, done)
      invariant NotReadyOutside(smat, done)
      invariant forall k :: 0 <= k < |rq| ==> InRange(n, m, rq[k])
      invariant dequeues + Pending(n, m, rq) == Work(n, m, 1, 1)
      decreases Pending(n, m, rq)
    {
      PendingStep(n, m, rq);
      QueueStep(n, m, rq, done);
      ghost var p := rq[0];
      rq := PopAndCompute(smat, tmat, s, t, rq, done);
      done := done + {p};
      dequeues := dequeues + 1;
    }
    Drained(n, m, done);
    forall i, j | 0 <= i <= n && 0 <= j <= m ensures Agrees(smat, tmat, s, t, i, j) {
      if i != 0 && j != 0 {
        assert InRange(n, m, (i, j));
      }
    }
    TotalDequeues(n, m);
  }

  /** `main` of align2.cpp without its I/O: fill, `maxScore`, `traceback`.
      The score is the largest finished score, at the lowermost, then
      rightmost, cell holding it (the bottom-right corner when no cell is
      positive); the route follows finished predecessors back from that cell
      and starts on row 0, on column 0 or at (1, 1). */
  method Align(s: seq<char>, t: seq<char>) returns (best: int, row: int, col: int, route: seq<(int, int)>)
    requires |s| >= 1 && |t| >= 1
    ensures best >= 0
    ensures forall i, j :: 1 <= i <= |s| && 1 <= j <= |t| ==> SW(s, t, i, j).score <= best
    ensures best == 0 ==> (row, col) == (|s|, |t|)
    ensures best > 0 ==>
              1 <= row <= |s| && 1 <= col <= |t| && SW(s, t, row, col).score == best &&
              forall i, j {:trigger SW(s, t, i, j)} :: 1 <= i <= |s| && 1 <= j <= |t| && SW(s, t, i, j).score == best ==> LexLeq((i, j), (row, col))
    ensures |route| >= 1 && route[|route| - 1] == (row, col)
    ensures forall k :: 0 <= k < |route| ==> 0 <= route[k].0 <= |s| && 0 <= route[k].1 <= |t|
    ensures forall k :: 0 <= k < |route| - 1 ==> route[k] != (0, 0)
    ensures forall k {:trigger FinishedPred(s, t, route[k])} :: 1 <= k < |route| ==>
              FinishedPred(s, t, route[k]) == route[k - 1]
    ensures FinishedPred(s, t, route[0]) == (0, 0)
    ensures route[0].0 == 0 || route[0].1 == 0 || route[0] == (1, 1)
  {
    var smat, tmat, _ := Fill(s, t);
    best, row, col := MaxScore.MaxScore(smat);
    FinishedBound(smat, tmat, s, t, best);
    if best > 0 {
      FinishedLastHolder(smat, tmat, s, t, best, row, col);
    }
    FinishedPointsBack(smat, tmat, s, t);
    route := Traceback.Traceback(tmat, (row, col));
    FinishedRoute(smat, tmat, s, t, route);
  }

  /** The `maxScore` of align2.cpp and align3.cpp on the same input,
      s = t = "A": its coordinates name the corner cell, which holds the
      score. */
  method CornerMaximumKeptByMaxScore() returns (best: int, row: int, col: int, held: int)
    ensures (best, row, col) == (1, 1, 1) && held == best
  {
    var smat, tmat, _ := Fill("A", "A");
    assert SW("A", "A", 1, 1).score == 1;
    assert Agrees(smat, tmat, "A", "A", 1, 1);
    best, row, col := MaxScore.MaxScore(smat);
    assert Interior(smat, 1, 1);
    held := smat[row, col];
  }
}
