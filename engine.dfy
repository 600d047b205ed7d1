/**
 * The in-place elimination engine of gaussianpar.c: the globals A, b and
 * y are arrays, each worker's share of a phase is a method, and each
 * barrier-delimited phase runs all T workers one after the other in an
 * arbitrary schedule. Every phase is proved equal to its value-level
 * counterpart in GaussSpec, which mentions neither T nor the schedule.
 */
module Engine {
  import opened GaussSpec
  import opened Stride
  import opened Pool

  /** Largest problem size the MAX_SIZE buffers of gaussianpar.c hold. */
  const MAX_SIZE := 4096

  /** Largest value of a C `int`, the type of the loop counters and of T. */
  const INT_MAX := 0x7fff_ffff

  /**
   * The problem fits the buffers, and the strided counters k + 1 + tid and
   * j + T of every worker stay within a C `int`.
   */
  predicate CountersFit(n: int, T: int)
  {
    n <= MAX_SIZE && T <= INT_MAX - MAX_SIZE
  }

  /** The contents of A as a matrix value. */
  ghost function Rows(A: array2<real>): (m: Matrix)
    reads A
  {
    seq(A.Length0, i requires 0 <= i < A.Length0 reads A =>
          seq(A.Length1, j requires 0 <= j < A.Length1 reads A => A[i, j]))
  }

  /** The engine's arrays as a State value. */
  ghost function Snapshot(A: array2<real>, b: array<real>, y: array<real>): (s: State)
    reads A, b, y
    ensures A.Length0 == A.Length1 == b.Length == y.Length ==> Shaped(s) && |s.a| == A.Length0
  {
    State(Rows(A), b[..], y[..])
  }

  /** A is N x N, b and y have length N, and b and y are different buffers. */
  predicate Fits(A: array2<real>, b: array<real>, y: array<real>)
  {
    A.Length0 == A.Length1 == b.Length == y.Length && b != y
  }

  lemma RowsEqual(A: array2<real>, m: Matrix)
    requires |m| == A.Length0 && forall i :: 0 <= i < |m| ==> |m[i]| == A.Length1
    requires forall i, j :: 0 <= i < A.Length0 && 0 <= j < A.Length1 ==> A[i, j] == m[i][j]
    ensures Rows(A) == m
  {
    forall i | 0 <= i < |m|
      ensures Rows(A)[i] == m[i]
    {
    }
  }

  /**
   * Worker tid's share of the division phase of step k: divide the
   * columns of its slice of row k by the pivot; worker 0 also captures
   * y[k] from the pivot. A worker whose slice is empty changes nothing.
   */
  method DivisionWorker(A: array2<real>, b: array<real>, y: array<real>, T: int, tid: int, k: int)
    requires Fits(A, b, y) && 0 <= tid < T && 0 <= k < A.Length0 && A[k, k] != 0.0
    requires CountersFit(A.Length0, T)
    modifies A, y
    ensures forall i, j :: 0 <= i < A.Length0 && 0 <= j < A.Length1 ==>
      A[i, j] == if i == k && InSlice(k + 1, tid, T, j) then old(A[k, j]) / old(A[k, k]) else old(A[i, j])
    ensures y[..] == if tid == 0 then old(y[..])[k := b[k] / old(A[k, k])] else old(y[..])
  {
    var n := A.Length0;
    assert k + 1 + tid <= INT_MAX;
    var j := k + 1 + tid;
    while j < n
      invariant InSlice(k + 1, tid, T, j)
      invariant forall r, c :: 0 <= r < n && 0 <= c < n ==>
        A[r, c] == if r == k && c < j && InSlice(k + 1, tid, T, c) then old(A[k, c]) / old(A[k, k]) else old(A[r, c])
      invariant y[..] == old(y[..])
    {
      SliceAdvance(k + 1, tid, T, j);
      A[k, j] := A[k, j] / A[k, k];
      assert j + T <= INT_MAX;
      j := j + T;
    }
    if tid == 0 {
      y[k] := b[k] / A[k, k];
    }
  }

  /**
   * Reduce row i against pivot row k: A[i][j] -= A[i][k] * A[k][j] for
   * j > k, then b[i] -= A[i][k] * y[k], then A[i][k] := 0.0, all with the
   * multiplier A[i][k] as it was before the row was touched.
   */
  method EliminateRow(A: array2<real>, b: array<real>, y: array<real>, k: int, i: int)
    requires Fits(A, b, y) && 0 <= k < i < A.Length0
    modifies A, b
    ensures forall r, c :: 0 <= r < A.Length0 && 0 <= c < A.Length1 ==>
      A[r, c] == if r == i && k <= c then
                   (if c == k then 0.0 else old(A[i, c]) - old(A[i, k]) * old(A[k, c]))
                 else old(A[r, c])
    ensures forall r :: 0 <= r < b.Length ==>
      b[r] == if r == i then old(b[i]) - old(A[i, k]) * y[k] else old(b[r])
  {
    var n := A.Length0;
    for j := k + 1 to n
      invariant forall r, c :: 0 <= r < n && 0 <= c < n ==>
        A[r, c] == if r == i && k < c < j then old(A[i, c]) - old(A[i, k]) * old(A[k, c]) else old(A[r, c])
      invariant forall r :: 0 <= r < n ==> b[r] == old(b[r])
    {
      A[i, j] := A[i, j] - A[i, k] * A[k, j];
    }
    b[i] := b[i] - A[i, k] * y[k];
    A[i, k] := 0.0;
  }

  /**
   * EliminateRow on a row that still holds the phase's starting state s,
   * against a pivot row that does too, yields that row of the elimination
   * phase's result.
   */
  method EliminateRowAsSpecified(A: array2<real>, b: array<real>, y: array<real>, k: int, i: int,
                                 ghost s: State)
    requires Fits(A, b, y) && 0 <= k < i < A.Length0
    requires Shaped(s) && |s.a| == A.Length0 && y[k] == s.y[k] && b[i] == s.b[i]
    requires forall c :: k < c < A.Length1 ==> A[k, c] == s.a[k][c]
    requires forall c :: 0 <= c < A.Length1 ==> A[i, c] == s.a[i][c]
    modifies A, b
    ensures forall r, c :: 0 <= r < A.Length0 && 0 <= c < A.Length1 ==>
      A[r, c] == if r == i then Eliminated(s, k).a[i][c] else old(A[r, c])
    ensures forall r :: 0 <= r < b.Length ==> b[r] == if r == i then Eliminated(s, k).b[i] else old(b[r])
  {
    EliminatedRows(s, k);
    EliminateRow(A, b, y, k, i);
  }

  /**
   * The strided row loop of worker tid in step k: every row of its slice
   * that still holds the phase's starting state s is reduced against the
   * pivot row and becomes the row of the elimination phase's result.
   */
  method EliminateSlice(A: array2<real>, b: array<real>, y: array<real>, T: int, tid: int, k: int,
                        ghost s: State)
    requires Fits(A, b, y) && 0 <= tid < T && 0 <= k < A.Length0
    requires CountersFit(A.Length0, T)
    requires Shaped(s) && |s.a| == A.Length0 && y[k] == s.y[k]
    requires forall c :: k < c < A.Length1 ==> A[k, c] == s.a[k][c]
    requires forall r, c :: 0 <= r < A.Length0 && 0 <= c < A.Length1 && InSlice(k + 1, tid, T, r) ==>
      A[r, c] == s.a[r][c]
    requires forall r :: 0 <= r < b.Length && InSlice(k + 1, tid, T, r) ==> b[r] == s.b[r]
    modifies A, b
    ensures forall r, c :: 0 <= r < A.Length0 && 0 <= c < A.Length1 ==>
      A[r, c] == if InSlice(k + 1, tid, T, r) then Eliminated(s, k).a[r][c] else old(A[r, c])
    ensures forall r :: 0 <= r < b.Length ==>
      b[r] == if InSlice(k + 1, tid, T, r) then Eliminated(s, k).b[r] else old(b[r])
  {
    var n, base := A.Length0, k + 1;
    ghost var e := Eliminated(s, k);
    assert base + tid <= INT_MAX;
    var i := base + tid;
    while i < n
      invariant InSlice(base, tid, T, i)
      invariant forall r, c :: 0 <= r < n && 0 <= c < n ==>
        A[r, c] == if r < i && InSlice(base, tid, T, r) then e.a[r][c] else old(A[r, c])
      invariant forall r :: 0 <= r < n ==>
        b[r] == if r < i && InSlice(base, tid, T, r) then e.b[r] else old(b[r])
    {
      SliceAdvance(base, tid, T, i);
      EliminateRowAsSpecified(A, b, y, k, i, s);
      assert i + T <= INT_MAX;
      i := i + T;
    }
  }

  /**
   * Worker tid's share of the elimination phase of step k, started from a
   * heap in which the rows tid owns, row k right of the pivot and y[k]
   * still hold the phase's starting state s: worker 0 sets the pivot to
   * 1.0, and every worker reduces the rows below the pivot that it owns.
   * Those entries, and nothing else, become the elimination phase's result.
   */
  method EliminationWorker(A: array2<real>, b: array<real>, y: array<real>, T: int, tid: int, k: int,
                           ghost s: State)
    requires Fits(A, b, y) && 0 <= tid < T && 0 <= k < A.Length0
    requires CountersFit(A.Length0, T)
    requires Shaped(s) && |s.a| == A.Length0 && y[k] == s.y[k]
    requires forall c :: k < c < A.Length1 ==> A[k, c] == s.a[k][c]
    requires forall r, c :: k < r < A.Length0 && 0 <= c < A.Length1 && Owner(k + 1, T, r) == tid ==>
      A[r, c] == s.a[r][c]
    requires forall r :: k < r < b.Length && Owner(k + 1, T, r) == tid ==> b[r] == s.b[r]
    modifies A, b
    ensures forall r, c :: 0 <= r < A.Length0 && 0 <= c < A.Length1 ==>
      A[r, c] == if (r == k && c == k && tid == 0) || (k < r && Owner(k + 1, T, r) == tid)
                 then Eliminated(s, k).a[r][c] else old(A[r, c])
    ensures forall r :: 0 <= r < b.Length ==>
      b[r] == if k < r && Owner(k + 1, T, r) == tid then Eliminated(s, k).b[r] else old(b[r])
  {
    var n, base := A.Length0, k + 1;
    forall r | base <= r < n
      ensures InSlice(base, tid, T, r) <==> Owner(base, T, r) == tid
    {
      SliceIsOwner(base, tid, T, r);
    }
    EliminatedRows(s, k);
    if tid == 0 {
      A[k, k] := 1.0;
    }
    EliminateSlice(A, b, y, T, tid, k, s);
  }

  /**
   * The division phase of step k up to the first barrier: every worker's
   * share, in the order `order`. Whatever the worker count and the order,
   * the result is the division phase of the specification.
   */
  method DivisionPhase(A: array2<real>, b: array<real>, y: array<real>, T: int, order: seq<int>, k: int)
    requires Fits(A, b, y) && T >= 1 && IsSchedule(order, T)
    requires CountersFit(A.Length0, T)
    requires 0 <= k < A.Length0 && A[k, k] != 0.0
    modifies A, y
    ensures Snapshot(A, b, y) == Divided(old(Snapshot(A, b, y)), k)
  {
    ghost var s := Snapshot(A, b, y);
    ghost var done: set<int> := {};
    var n := A.Length0;
    for t := 0 to |order|
      invariant forall p :: 0 <= p < t ==> order[p] in done
      invariant forall x :: x in done ==> forall p :: t <= p < |order| ==> order[p] != x
      invariant forall i, j :: 0 <= i < n && 0 <= j < n ==>
        A[i, j] == if i == k && k < j && Owner(k + 1, T, j) in done then old(A[k, j]) / old(A[k, k])
                   else old(A[i, j])
      invariant y[..] == if 0 in done then old(y[..])[k := b[k] / old(A[k, k])] else old(y[..])
    {
      var tid := order[t];
      var base := k + 1;
      forall j | base <= j < n
        ensures InSlice(base, tid, T, j) <==> Owner(base, T, j) == tid
      {
        SliceIsOwner(base, tid, T, j);
      }
      DivisionWorker(A, b, y, T, tid, k);
      done := done + {tid};
    }
    forall x | 0 <= x < T
      ensures x in done
    {
      assert x in order;
      var p :| 0 <= p < |order| && order[p] == x;
    }
    RowsEqual(A, Divided(s, k).a);
  }

  /**
   * The elimination phase of step k, between the two barriers: every
   * worker's share, in the order `order`. Whatever the worker count and
   * the order, the result is the elimination phase of the specification.
   */
  method EliminationPhase(A: array2<real>, b: array<real>, y: array<real>, T: int, order: seq<int>, k: int)
    requires Fits(A, b, y) && T >= 1 && IsSchedule(order, T) && 0 <= k < A.Length0
    requires CountersFit(A.Length0, T)
    modifies A, b
    ensures Snapshot(A, b, y) == Eliminated(old(Snapshot(A, b, y)), k)
  {
    ghost var s := Snapshot(A, b, y);
    ghost var e := Eliminated(s, k);
    ghost var done: set<int> := {};
    var n := A.Length0;
    for t := 0 to |order|
      invariant forall p :: 0 <= p < t ==> order[p] in done
      invariant forall x :: x in done ==> forall p :: t <= p < |order| ==> order[p] != x
      invariant forall i, j :: 0 <= i < n && 0 <= j < n ==>
        A[i, j] == if (i == k && j == k && 0 in done) || (k < i && Owner(k + 1, T, i) in done)
                   then e.a[i][j] else s.a[i][j]
      invariant forall i :: 0 <= i < n ==>
        b[i] == if k < i && Owner(k + 1, T, i) in done then e.b[i] else s.b[i]
    {
      var tid := order[t];
      EliminationWorker(A, b, y, T, tid, k, s);
      done := done + {tid};
    }
    forall x | 0 <= x < T
      ensures x in done
    {
      assert x in order;
      var p :| 0 <= p < |order| && order[p] == x;
    }
    RowsEqual(A, e.a);
    assert b[..] == e.b;
  }

  /** Pivot step k: the division phase, a barrier, the elimination phase, a barrier. */
  method PivotStep(A: array2<real>, b: array<real>, y: array<real>, T: int,
                   divOrder: seq<int>, elimOrder: seq<int>, k: int)
    requires Fits(A, b, y) && T >= 1 && IsSchedule(divOrder, T) && IsSchedule(elimOrder, T)
    requires CountersFit(A.Length0, T)
    requires 0 <= k < A.Length0 && A[k, k] != 0.0
    modifies A, b, y
    ensures Snapshot(A, b, y) == Pivoted(old(Snapshot(A, b, y)), k)
  {
    DivisionPhase(A, b, y, T, divOrder, k);
    EliminationPhase(A, b, y, T, elimOrder, k);
  }

  /**
   * All N pivot steps, with the workers of each phase run in the orders
   * given by divOrders[k] and elimOrders[k]. The final A, b and y are
   * those of the specification: they depend neither on T nor on the orders.
   */
  method WorkScheduled(A: array2<real>, b: array<real>, y: array<real>, T: int,
                       divOrders: seq<seq<int>>, elimOrders: seq<seq<int>>)
    requires Fits(A, b, y) && T >= 1 && CountersFit(A.Length0, T)
    requires |divOrders| == A.Length0 && |elimOrders| == A.Length0
    requires forall k :: 0 <= k < A.Length0 ==> IsSchedule(divOrders[k], T) && IsSchedule(elimOrders[k], T)
    requires PivotsNonzero(Snapshot(A, b, y), 0)
    modifies A, b, y
    ensures Snapshot(A, b, y) == Reduced(old(Snapshot(A, b, y)), 0)
    ensures UnitUpper(Rows(A))
  {
    ghost var s0 := Snapshot(A, b, y);
    var n := A.Length0;
    for k := 0 to n
      invariant PivotsNonzero(Snapshot(A, b, y), k)
      invariant Reduced(Snapshot(A, b, y), k) == Reduced(s0, 0)
    {
      assert Snapshot(A, b, y).a[k][k] == A[k, k];
      PivotStep(A, b, y, T, divOrders[k], elimOrders[k], k);
    }
    ReducedUnitUpper(s0);
  }

  /**
   * The engine as `work` runs it: the pool's T workers, each phase in the
   * order the identities were handed out.
   */
  method Work(A: array2<real>, b: array<real>, y: array<real>, T: int)
    requires Fits(A, b, y) && T >= 1 && CountersFit(A.Length0, T)
    requires PivotsNonzero(Snapshot(A, b, y), 0)
    modifies A, b, y
    ensures Snapshot(A, b, y) == Reduced(old(Snapshot(A, b, y)), 0)
    ensures UnitUpper(Rows(A))
  {
    var order := SpawnOrder(T);
    var orders := seq(A.Length0, _ => order);
    WorkScheduled(A, b, y, T, orders, orders);
  }

  /**
   * The worker count does not matter: two engines started on equal
   * contents, with any worker counts, end with equal contents.
   */
  method WorkerCountIrrelevant(A1: array2<real>, b1: array<real>, y1: array<real>, T1: int,
                               A2: array2<real>, b2: array<real>, y2: array<real>, T2: int)
    requires Fits(A1, b1, y1) && Fits(A2, b2, y2) && T1 >= 1 && T2 >= 1
    requires CountersFit(A1.Length0, T1) && CountersFit(A2.Length0, T2)
    requires A1 != A2 && b1 != b2 && b1 != y2 && y1 != b2 && y1 != y2
    requires Snapshot(A1, b1, y1) == Snapshot(A2, b2, y2)
    requires PivotsNonzero(Snapshot(A1, b1, y1), 0)
    modifies A1, b1, y1, A2, b2, y2
    ensures Snapshot(A1, b1, y1) == Snapshot(A2, b2, y2)
  {
    Work(A1, b1, y1, T1);
    Work(A2, b2, y2, T2);
  }
}
