/**
 * What one run of the elimination engine of gaussianpar.c computes, on
 * values. A pivot step k is the division phase (row k right of the
 * diagonal divided by the pivot, y[k] captured from the old pivot)
 * followed, after the first barrier, by the elimination phase (the pivot
 * set to 1.0 and every row below row k reduced against it). Values are
 * exact reals; a zero pivot is a precondition violation.
 */
module GaussSpec {

  type Matrix = seq<seq<real>>

  /** The engine's shared state: matrix A and vectors b and y. */
  datatype State = State(a: Matrix, b: seq<real>, y: seq<real>)

  predicate Square(a: Matrix)
  {
    forall i :: 0 <= i < |a| ==> |a[i]| == |a|
  }

  /** A is N x N and b and y have length N, where N = |a|. */
  predicate Shaped(s: State)
  {
    Square(s.a) && |s.b| == |s.a| && |s.y| == |s.a|
  }

  /** Phase 1 of step k: divide row k right of the pivot and capture y[k]. */
  function Divided(s: State, k: nat): (r: State)
    requires Shaped(s) && k < |s.a| && s.a[k][k] != 0.0
    ensures Shaped(r) && |r.a| == |s.a|
  {
    var n, p := |s.a|, s.a[k][k];
    State(s.a[k := seq(n, j requires 0 <= j < n => if k < j then s.a[k][j] / p else s.a[k][j])],
          s.b,
          s.y[k := s.b[k] / p])
  }

  /** Phase 2 of step k: set the pivot to 1.0 and eliminate column k below it. */
  function Eliminated(s: State, k: nat): (r: State)
    requires Shaped(s) && k < |s.a|
    ensures Shaped(r) && |r.a| == |s.a|
  {
    var n := |s.a|;
    State(seq(n, i requires 0 <= i < n =>
                if i == k then s.a[k][k := 1.0]
                else if i < k then s.a[i]
                else seq(n, j requires 0 <= j < n =>
                           if j < k then s.a[i][j]
                           else if j == k then 0.0
                           else s.a[i][j] - s.a[i][k] * s.a[k][j])),
          seq(n, i requires 0 <= i < n => if k < i then s.b[i] - s.a[i][k] * s.y[k] else s.b[i]),
          s.y)
  }

  /** Pivot step k: the two phases, separated by a barrier. */
  function Pivoted(s: State, k: nat): (r: State)
    requires Shaped(s) && k < |s.a| && s.a[k][k] != 0.0
    ensures Shaped(r) && |r.a| == |s.a|
  {
    Eliminated(Divided(s, k), k)
  }

  /** Every pivot met by steps k .. N-1, run from s, is nonzero. */
  predicate PivotsNonzero(s: State, k: nat)
    decreases |s.a| - k
  {
    && Shaped(s)
    && k <= |s.a|
    && (k == |s.a| || (s.a[k][k] != 0.0 && PivotsNonzero(Pivoted(s, k), k + 1)))
  }

  /** The state after pivot steps k .. N-1 have run from s. */
  function Reduced(s: State, k: nat): (r: State)
    requires PivotsNonzero(s, k)
    ensures Shaped(r) && |r.a| == |s.a|
    decreases |s.a| - k
  {
    if k == |s.a| then s else Reduced(Pivoted(s, k), k + 1)
  }

  /** Columns 0 .. c-1 of a hold 1.0 on the diagonal and 0.0 below it. */
  predicate UnitUpperTo(a: Matrix, c: nat)
    requires Square(a) && c <= |a|
  {
    forall i, j :: 0 <= j < c && j <= i < |a| ==> a[i][j] == if i == j then 1.0 else 0.0
  }

  /** a is unit upper-triangular. */
  predicate UnitUpper(a: Matrix)
    requires Square(a)
  {
    UnitUpperTo(a, |a|)
  }

  /**
   * Division and pivot capture: row k right of the diagonal is divided by
   * the old pivot, y[k] is b[k] over the old pivot, and the pivot becomes 1.0.
   */
  lemma PivotRowDivided(s: State, k: nat)
    requires Shaped(s) && k < |s.a| && s.a[k][k] != 0.0
    ensures Pivoted(s, k).a[k][k] == 1.0
    ensures forall j :: k < j < |s.a| ==> Pivoted(s, k).a[k][j] == s.a[k][j] / s.a[k][k]
    ensures Pivoted(s, k).y[k] == s.b[k] / s.a[k][k]
  {
  }

  /** Column k below the pivot is zero after step k. */
  lemma PivotColumnCleared(s: State, k: nat)
    requires Shaped(s) && k < |s.a| && s.a[k][k] != 0.0
    ensures forall i :: k < i < |s.a| ==> Pivoted(s, k).a[i][k] == 0.0
  {
  }

  /**
   * Elimination: each row i below the pivot loses m_i times the divided
   * row k, where m_i is A[i][k] read before it is zeroed; b[i] loses m_i * y[k].
   */
  lemma PivotEliminates(s: State, k: nat)
    requires Shaped(s) && k < |s.a| && s.a[k][k] != 0.0
    ensures forall i, j :: k < i < |s.a| && k < j < |s.a| ==>
      Pivoted(s, k).a[i][j] == s.a[i][j] - s.a[i][k] * (s.a[k][j] / s.a[k][k])
    ensures forall i :: k < i < |s.a| ==>
      Pivoted(s, k).b[i] == s.b[i] - s.a[i][k] * (s.b[k] / s.a[k][k])
  {
  }

  /** The elimination phase of step k, entry by entry. */
  lemma EliminatedRows(s: State, k: nat)
    requires Shaped(s) && k < |s.a|
    ensures forall i, j :: 0 <= i < |s.a| && 0 <= j < |s.a| ==>
      Eliminated(s, k).a[i][j] ==
        if i == k && j == k then 1.0
        else if i <= k || j < k then s.a[i][j]
        else if j == k then 0.0
        else s.a[i][j] - s.a[i][k] * s.a[k][j]
    ensures forall i :: 0 <= i < |s.a| ==>
      Eliminated(s, k).b[i] == if k < i then s.b[i] - s.a[i][k] * s.y[k] else s.b[i]
  {
    var e := Eliminated(s, k);
    forall j | 0 <= j < |s.a|
      ensures e.a[k][j] == if j == k then 1.0 else s.a[k][j]
    {
    }
  }

  /** Step k leaves rows and columns before k, b[0..k] and every y[j] with j != k alone. */
  lemma PivotFrame(s: State, k: nat)
    requires Shaped(s) && k < |s.a| && s.a[k][k] != 0.0
    ensures forall i, j :: 0 <= i < |s.a| && 0 <= j < |s.a| && (i < k || j < k) ==>
      Pivoted(s, k).a[i][j] == s.a[i][j]
    ensures Pivoted(s, k).b[..k + 1] == s.b[..k + 1]
    ensures forall j :: 0 <= j < |s.a| && j != k ==> Pivoted(s, k).y[j] == s.y[j]
  {
  }

  /** Step k extends a unit upper-triangular prefix of columns by column k. */
  lemma PivotExtendsUnitUpper(s: State, k: nat)
    requires Shaped(s) && k < |s.a| && s.a[k][k] != 0.0 && UnitUpperTo(s.a, k)
    ensures UnitUpperTo(Pivoted(s, k).a, k + 1)
  {
    PivotRowDivided(s, k);
    PivotColumnCleared(s, k);
    PivotFrame(s, k);
  }

  /** Running the remaining steps completes a unit upper-triangular matrix. */
  lemma {:induction false} ReducedUnitUpperFrom(s: State, k: nat)
    requires PivotsNonzero(s, k) && UnitUpperTo(s.a, k)
    ensures UnitUpper(Reduced(s, k).a)
    decreases |s.a| - k
  {
    if k < |s.a| {
      PivotExtendsUnitUpper(s, k);
      ReducedUnitUpperFrom(Pivoted(s, k), k + 1);
    }
  }

  /** After all N pivot steps, A is unit upper-triangular. */
  lemma ReducedUnitUpper(s: State)
    requires PivotsNonzero(s, 0)
    ensures UnitUpper(Reduced(s, 0).a)
  {
    ReducedUnitUpperFrom(s, 0);
  }

  /**
   * The engine writes every y[k] before anything reads it: states that
   * differ only in y[k ..] reach the same result from step k on.
   */
  lemma {:induction false} ReducedOverwritesY(s: State, t: State, k: nat)
    requires PivotsNonzero(s, k)
    requires t.a == s.a && t.b == s.b && |t.y| == |s.y| && t.y[..k] == s.y[..k]
    ensures PivotsNonzero(t, k) && Reduced(t, k) == Reduced(s, k)
    decreases |s.a| - k
  {
    if k == |s.a| {
      assert t.y == t.y[..k] && s.y == s.y[..k];
    } else {
      var s', t' := Pivoted(s, k), Pivoted(t, k);
      assert Divided(t, k).a == Divided(s, k).a;
      assert Divided(t, k).y[k] == Divided(s, k).y[k];
      assert t'.a == s'.a && t'.b == s'.b;
      assert t'.y[..k + 1] == s'.y[..k + 1] by {
        forall j | 0 <= j < k + 1
          ensures t'.y[j] == s'.y[j]
        {
          if j < k {
            assert t.y[..k][j] == s.y[..k][j];
          }
        }
      }
      ReducedOverwritesY(s', t', k + 1);
    }
  }

  /** On a unit upper-triangular A, step k changes only y[k], which becomes b[k]. */
  lemma PivotOnUnitUpper(s: State, k: nat)
    requires Shaped(s) && k < |s.a| && UnitUpper(s.a)
    ensures s.a[k][k] == 1.0
    ensures Pivoted(s, k) == State(s.a, s.b, s.y[k := s.b[k]])
  {
    var n := |s.a|;
    var r := Pivoted(s, k);
    forall i | 0 <= i < n
      ensures r.a[i] == s.a[i]
    {
      if i == k {
        PivotRowDivided(s, k);
        forall j | 0 <= j < n
          ensures r.a[k][j] == s.a[k][j]
        {
        }
      }
    }
    assert r.a == s.a;
    assert r.b == s.b;
  }

  /**
   * Idempotence on the shape: rerunning the engine on a unit
   * upper-triangular A leaves A and b unchanged and copies b into y[k ..].
   */
  lemma {:induction false} ReducedFixesUnitUpper(s: State, k: nat)
    requires Shaped(s) && k <= |s.a| && UnitUpper(s.a)
    ensures PivotsNonzero(s, k)
    ensures Reduced(s, k) == State(s.a, s.b, s.y[..k] + s.b[k..])
    decreases |s.a| - k
  {
    if k == |s.a| {
      assert s.y[..k] + s.b[k..] == s.y;
    } else {
      PivotOnUnitUpper(s, k);
      var s' := State(s.a, s.b, s.y[k := s.b[k]]);
      ReducedFixesUnitUpper(s', k + 1);
      assert s'.y[..k + 1] + s.b[k + 1..] == s.y[..k] + s.b[k..];
    }
  }

  /**
   * N = 1: the run only captures y[0] = b[0] / A[0][0] and sets the pivot
   * to 1.0; there is nothing to eliminate.
   */
  lemma ReducedSingle(s: State)
    requires Shaped(s) && |s.a| == 1 && s.a[0][0] != 0.0
    ensures PivotsNonzero(s, 0)
    ensures Reduced(s, 0) == State([[1.0]], s.b, [s.b[0] / s.a[0][0]])
  {
    PivotSingle(s);
    assert PivotsNonzero(Pivoted(s, 0), 1);
  }

  /** The one pivot step of an N = 1 run. */
  lemma PivotSingle(s: State)
    requires Shaped(s) && |s.a| == 1 && s.a[0][0] != 0.0
    ensures Pivoted(s, 0) == State([[1.0]], s.b, [s.b[0] / s.a[0][0]])
  {
    var d := Divided(s, 0);
    assert d.a[0] == s.a[0];
    var r := Eliminated(d, 0);
    assert r.a[0] == [1.0];
    assert r.a == [[1.0]];
    assert r.b == s.b;
  }
}
