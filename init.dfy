/**
 * The "fast" branch of Init_Matrix in gaussianpar.c: 5.0 on the diagonal
 * of A, 2.0 everywhere else, b all 2.0 and y all 1.0. Elimination keeps
 * the lower-right block of such a matrix of the same shape (one value d
 * on the diagonal, one value e off it, 0 < e < d), so no pivot it meets
 * is ever zero, whatever N is.
 */
module FastInit {
  import opened GaussSpec
  import opened Engine

  /** The state the fast initialiser produces for problem size n. */
  function FastState(n: nat): (s: State)
    ensures Shaped(s) && |s.a| == n
  {
    State(seq(n, i => seq(n, j => if i == j then 5.0 else 2.0)),
          seq(n, _ => 2.0),
          seq(n, _ => 1.0))
  }

  /** Fill A, b and y as Init_Matrix does when the init type is "fast". */
  method InitFast(A: array2<real>, b: array<real>, y: array<real>)
    requires Fits(A, b, y)
    modifies A, b, y
    ensures forall i, j :: 0 <= i < A.Length0 && 0 <= j < A.Length1 ==>
      A[i, j] == if i == j then 5.0 else 2.0
    ensures forall i :: 0 <= i < b.Length ==> b[i] == 2.0 && y[i] == 1.0
    ensures Snapshot(A, b, y) == FastState(A.Length0)
  {
    var n := A.Length0;
    for i := 0 to n
      invariant forall r, c :: 0 <= r < i && 0 <= c < n ==> A[r, c] == if r == c then 5.0 else 2.0
    {
      for j := 0 to n
        invariant forall r, c :: 0 <= r < i && 0 <= c < n ==> A[r, c] == if r == c then 5.0 else 2.0
        invariant forall c :: 0 <= c < j ==> A[i, c] == if i == c then 5.0 else 2.0
      {
        if i == j {
          A[i, j] := 5.0;
        } else {
          A[i, j] := 2.0;
        }
      }
    }
    for i := 0 to n
      invariant forall r, c :: 0 <= r < n && 0 <= c < n ==> A[r, c] == if r == c then 5.0 else 2.0
      invariant forall r :: 0 <= r < i ==> b[r] == 2.0 && y[r] == 1.0
    {
      b[i] := 2.0;
      y[i] := 1.0;
    }
    RowsEqual(A, FastState(n).a);
    assert b[..] == FastState(n).b;
    assert y[..] == FastState(n).y;
  }

  /** From column k on, a holds d on the diagonal and e everywhere else. */
  predicate UniformFrom(a: Matrix, k: nat, d: real, e: real)
    requires Square(a)
  {
    forall i, j :: k <= i < |a| && k <= j < |a| ==> a[i][j] == if i == j then d else e
  }

  /**
   * One pivot step on a uniform block with 0 < e < d: the pivot d is
   * nonzero, and the block that remains is uniform again, with both
   * values lowered by e * e / d and still 0 < e' < d'.
   */
  lemma UniformStep(s: State, k: nat, d: real, e: real)
    requires Shaped(s) && k < |s.a| && 0.0 < e < d && UniformFrom(s.a, k, d, e)
    ensures s.a[k][k] != 0.0
    ensures 0.0 < e - e * e / d < d - e * e / d
    ensures UniformFrom(Pivoted(s, k).a, k + 1, d - e * e / d, e - e * e / d)
  {
    Shrink(d, e);
    PivotEliminates(s, k);
    var n, r := |s.a|, Pivoted(s, k).a;
    forall i, j | k + 1 <= i < n && k + 1 <= j < n
      ensures r[i][j] == if i == j then d - e * e / d else e - e * e / d
    {
      assert r[i][j] == s.a[i][j] - e * (e / d);
    }
  }

  /** For 0 < e < d, lowering both by e * e / d keeps 0 < e' < d'. */
  lemma Shrink(d: real, e: real)
    requires 0.0 < e < d
    ensures e * (e / d) == e * e / d
    ensures 0.0 < e - e * e / d < d - e * e / d
  {
    assert e * e < e * d;
    assert e * e / d < e * d / d == e;
  }

  lemma {:induction false} UniformPivotsNonzero(s: State, k: nat, d: real, e: real)
    requires Shaped(s) && k <= |s.a| && 0.0 < e < d && UniformFrom(s.a, k, d, e)
    ensures PivotsNonzero(s, k)
    decreases |s.a| - k
  {
    if k < |s.a| {
      UniformStep(s, k, d, e);
      UniformPivotsNonzero(Pivoted(s, k), k + 1, d - e * e / d, e - e * e / d);
    }
  }

  /** The fast initial state never presents a zero pivot, for any N. */
  lemma FastPivotsNonzero(n: nat)
    ensures PivotsNonzero(FastState(n), 0)
  {
    UniformPivotsNonzero(FastState(n), 0, 5.0, 2.0);
  }

  /**
   * Init_Matrix with the "fast" init type followed by `work`: the engine
   * runs without a precondition on the pivots and leaves A unit
   * upper-triangular, for every worker count.
   */
  method FastRun(A: array2<real>, b: array<real>, y: array<real>, T: int)
    requires Fits(A, b, y) && T >= 1 && CountersFit(A.Length0, T)
    modifies A, b, y
    ensures PivotsNonzero(FastState(A.Length0), 0)
    ensures Snapshot(A, b, y) == Reduced(FastState(A.Length0), 0)
    ensures UnitUpper(Rows(A))
  {
    InitFast(A, b, y);
    FastPivotsNonzero(A.Length0);
    Work(A, b, y, T);
  }
}
