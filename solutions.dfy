/**
 * What the elimination computes, stated as linear algebra. The engine
 * turns the system A x = b into a unit upper-triangular system A' x = y,
 * whose solution back-substitution then reads off. Every pivot step keeps
 * the solution set: a vector x solves the system as it stands before step
 * k exactly when it solves the system after it. Rows that have already
 * been pivoted hold their right-hand side in y, and the rest hold it in b.
 */
module Solutions {
  import opened GaussSpec

  /** The dot product of a row with x. */
  function Dot(u: seq<real>, x: seq<real>): (d: real)
    requires |u| == |x|
  {
    if |u| == 0 then 0.0 else u[0] * x[0] + Dot(u[1..], x[1..])
  }

  /** The vector A x. */
  function Apply(a: Matrix, x: seq<real>): (l: seq<real>)
    requires Square(a) && |x| == |a|
    ensures |l| == |a|
  {
    seq(|a|, i requires 0 <= i < |a| => Dot(a[i], x))
  }

  /** Row u minus c times row v. */
  function Minus(u: seq<real>, c: real, v: seq<real>): (w: seq<real>)
    requires |u| == |v|
    ensures |w| == |u|
  {
    seq(|u|, j requires 0 <= j < |u| => u[j] - c * v[j])
  }

  /** Row v divided by p. */
  function Over(v: seq<real>, p: real): (w: seq<real>)
    requires p != 0.0
    ensures |w| == |v|
  {
    seq(|v|, j requires 0 <= j < |v| => v[j] / p)
  }

  /**
   * Equation i reads l[i] == y[i] for the rows i < k already pivoted, and
   * l[i] == b[i] for the others.
   */
  predicate Holds(l: seq<real>, b: seq<real>, y: seq<real>, k: nat)
    requires |l| == |b| == |y|
  {
    forall i :: 0 <= i < |l| ==> l[i] == if i < k then y[i] else b[i]
  }

  /** x solves the system as it stands before pivot step k. */
  predicate SolvedBy(s: State, k: nat, x: seq<real>)
    requires Shaped(s) && |x| == |s.a|
  {
    Holds(Apply(s.a, x), s.b, s.y, k)
  }

  /** The dot product is linear in the row. */
  lemma {:induction false} DotMinus(u: seq<real>, c: real, v: seq<real>, x: seq<real>)
    requires |u| == |v| == |x|
    ensures Dot(Minus(u, c, v), x) == Dot(u, x) - c * Dot(v, x)
  {
    if |x| > 0 {
      var w := Minus(u, c, v);
      assert w[1..] == Minus(u[1..], c, v[1..]) by {
        forall j | 0 <= j < |x| - 1
          ensures w[1..][j] == Minus(u[1..], c, v[1..])[j]
        {
          assert w[1..][j] == u[j + 1] - c * v[j + 1];
        }
      }
      DotMinus(u[1..], c, v[1..], x[1..]);
      assert w[0] * x[0] == u[0] * x[0] - c * (v[0] * x[0]);
    }
  }

  /** Dividing the row divides the dot product. */
  lemma {:induction false} DotOver(v: seq<real>, p: real, x: seq<real>)
    requires |v| == |x| && p != 0.0
    ensures Dot(Over(v, p), x) * p == Dot(v, x)
  {
    if |x| > 0 {
      var w := Over(v, p);
      assert w[1..] == Over(v[1..], p);
      DotOver(v[1..], p, x[1..]);
      assert (w[0] * x[0]) * p == v[0] * x[0];
    }
  }

  /** A nonzero factor cancels. */
  lemma Cancel(u: real, v: real, p: real)
    requires p != 0.0
    ensures u * p == v * p <==> u == v
  {
    if u * p == v * p {
      assert (u - v) * p == 0.0;
    }
  }

  /**
   * The row operations of pivot step k keep the equations, read on the
   * left-hand sides l = A x: rows before k and their y are kept, row k and
   * its right-hand side are scaled by 1 / p into y[k], and every row i > k
   * loses m[i] times the scaled row k.
   */
  lemma RowOpsKeepEquations(l: seq<real>, b: seq<real>, y: seq<real>, l': seq<real>, b': seq<real>, y': seq<real>,
                            m: seq<real>, k: nat, p: real)
    requires |l| == |b| == |y| == |l'| == |b'| == |y'| == |m| && k < |l| && p != 0.0
    requires forall i :: 0 <= i < k ==> l'[i] == l[i] && y'[i] == y[i]
    requires l'[k] * p == l[k] && y'[k] * p == b[k]
    requires forall i :: k < i < |l| ==> l'[i] == l[i] - m[i] * l'[k] && b'[i] == b[i] - m[i] * y'[k]
    ensures Holds(l, b, y, k) <==> Holds(l', b', y', k + 1)
  {
    Cancel(l'[k], y'[k], p);
  }

  /** Row k of step k is the old row k divided by the pivot; so is y[k] from b[k]. */
  lemma PivotRowScaled(s: State, k: nat)
    requires Shaped(s) && k < |s.a| && s.a[k][k] != 0.0 && UnitUpperTo(s.a, k)
    ensures Pivoted(s, k).a[k] == Over(s.a[k], s.a[k][k])
    ensures Pivoted(s, k).y[k] * s.a[k][k] == s.b[k]
  {
    var p, r := s.a[k][k], Pivoted(s, k);
    PivotRowDivided(s, k);
    PivotFrame(s, k);
    forall j | 0 <= j < |s.a|
      ensures r.a[k][j] == s.a[k][j] / p
    {
      if j < k {
        assert s.a[k][j] == 0.0;
      }
    }
  }

  /** Row i > k of step k is the old row minus A[i][k] times the new row k. */
  lemma PivotRowReduced(s: State, k: nat, i: nat)
    requires Shaped(s) && k < i < |s.a| && s.a[k][k] != 0.0 && UnitUpperTo(s.a, k)
    ensures Pivoted(s, k).a[i] == Minus(s.a[i], s.a[i][k], Pivoted(s, k).a[k])
  {
    var n, d := |s.a|, Divided(s, k);
    var r := Eliminated(d, k);
    assert d.a[i] == s.a[i];
    EliminatedRows(d, k);
    forall j | 0 <= j < n
      ensures r.a[i][j] == Minus(s.a[i], s.a[i][k], r.a[k])[j]
    {
      if j < k {
        assert d.a[k][j] == s.a[k][j] == 0.0;
      }
    }
  }

  /** Below k, b[i] loses A[i][k] times the captured y[k]. */
  lemma PivotReducesB(s: State, k: nat)
    requires Shaped(s) && k < |s.a| && s.a[k][k] != 0.0
    ensures forall i :: k < i < |s.a| ==> Pivoted(s, k).b[i] == s.b[i] - s.a[i][k] * Pivoted(s, k).y[k]
  {
    PivotRowDivided(s, k);
    PivotEliminates(s, k);
  }

  /** Step k read on A x: row k is divided by the pivot, and row i > k loses A[i][k] times it. */
  lemma PivotApplyBelow(s: State, k: nat, x: seq<real>)
    requires Shaped(s) && k < |s.a| && s.a[k][k] != 0.0 && UnitUpperTo(s.a, k) && |x| == |s.a|
    ensures Apply(Pivoted(s, k).a, x)[k] * s.a[k][k] == Apply(s.a, x)[k]
    ensures forall i :: k < i < |s.a| ==>
      Apply(Pivoted(s, k).a, x)[i] == Apply(s.a, x)[i] - s.a[i][k] * Apply(Pivoted(s, k).a, x)[k]
  {
    var r := Pivoted(s, k);
    PivotRowScaled(s, k);
    DotOver(s.a[k], s.a[k][k], x);
    forall i | k < i < |s.a|
      ensures Dot(r.a[i], x) == Dot(s.a[i], x) - s.a[i][k] * Dot(r.a[k], x)
    {
      PivotRowReduced(s, k, i);
      DotMinus(s.a[i], s.a[i][k], r.a[k], x);
    }
  }

  /** Step k leaves the equations of the rows before k alone. */
  lemma PivotApplyAbove(s: State, k: nat, x: seq<real>)
    requires Shaped(s) && k < |s.a| && s.a[k][k] != 0.0 && |x| == |s.a|
    ensures forall i :: 0 <= i < k ==>
      Apply(Pivoted(s, k).a, x)[i] == Apply(s.a, x)[i] && Pivoted(s, k).y[i] == s.y[i]
  {
    var r := Pivoted(s, k);
    PivotFrame(s, k);
    forall i | 0 <= i < k
      ensures r.a[i] == s.a[i]
    {
    }
  }

  /**
   * r arises from s by the row operations of pivot step k, read on A x:
   * rows before k and their y are kept, row k and its right-hand side are
   * divided by the pivot into y[k], and every row i > k loses A[i][k]
   * times the divided row k.
   */
  predicate StepRelated(s: State, r: State, k: nat, x: seq<real>)
    requires Shaped(s) && Shaped(r) && |r.a| == |s.a| && k < |s.a| && |x| == |s.a|
  {
    && Apply(r.a, x)[k] * s.a[k][k] == Apply(s.a, x)[k] && r.y[k] * s.a[k][k] == s.b[k]
    && (forall i :: k < i < |s.a| ==> Apply(r.a, x)[i] == Apply(s.a, x)[i] - s.a[i][k] * Apply(r.a, x)[k])
    && (forall i :: k < i < |s.a| ==> r.b[i] == s.b[i] - s.a[i][k] * r.y[k])
    && (forall i :: 0 <= i < k ==> Apply(r.a, x)[i] == Apply(s.a, x)[i] && r.y[i] == s.y[i])
  }

  /** Pivot step k is such a row operation. */
  lemma PivotStepRelated(s: State, k: nat, x: seq<real>)
    requires Shaped(s) && k < |s.a| && s.a[k][k] != 0.0 && UnitUpperTo(s.a, k) && |x| == |s.a|
    ensures StepRelated(s, Pivoted(s, k), k, x)
  {
    PivotRowScaled(s, k);
    PivotApplyBelow(s, k, x);
    PivotApplyAbove(s, k, x);
    PivotReducesB(s, k);
  }

  /** A row operation with a nonzero pivot keeps the solutions. */
  lemma StepKeepsSolutions(s: State, r: State, k: nat, x: seq<real>)
    requires Shaped(s) && Shaped(r) && |r.a| == |s.a| && k < |s.a| && s.a[k][k] != 0.0 && |x| == |s.a|
    requires StepRelated(s, r, k, x)
    ensures SolvedBy(s, k, x) <==> SolvedBy(r, k + 1, x)
  {
    var n := |s.a|;
    var m := seq(n, i requires 0 <= i < n => s.a[i][k]);
    RowOpsKeepEquations(Apply(s.a, x), s.b, s.y, Apply(r.a, x), r.b, r.y, m, k, s.a[k][k]);
  }

  /**
   * Pivot step k keeps the solutions: on a state whose first k columns
   * are already unit upper-triangular, x solves the system before the
   * step exactly when it solves the system after it.
   */
  lemma PivotKeepsSolutions(s: State, k: nat, x: seq<real>)
    requires Shaped(s) && k < |s.a| && s.a[k][k] != 0.0 && UnitUpperTo(s.a, k) && |x| == |s.a|
    ensures SolvedBy(s, k, x) <==> SolvedBy(Pivoted(s, k), k + 1, x)
  {
    PivotStepRelated(s, k, x);
    StepKeepsSolutions(s, Pivoted(s, k), k, x);
  }

  /** Running steps k .. N-1 keeps the solutions (induction over k). */
  lemma {:induction false} ReducedKeepsSolutionsFrom(s: State, k: nat, x: seq<real>)
    requires PivotsNonzero(s, k) && UnitUpperTo(s.a, k) && |x| == |s.a|
    ensures SolvedBy(s, k, x) <==> SolvedBy(Reduced(s, k), |s.a|, x)
    decreases |s.a| - k
  {
    if k < |s.a| {
      PivotKeepsSolutions(s, k, x);
      PivotExtendsUnitUpper(s, k);
      ReducedKeepsSolutionsFrom(Pivoted(s, k), k + 1, x);
    }
  }

  /**
   * The engine's result means what it should: x solves A x = b exactly
   * when it solves A' x = y, the unit upper-triangular system the run
   * leaves behind.
   */
  lemma ReducedKeepsSolutions(s: State, x: seq<real>)
    requires PivotsNonzero(s, 0) && |x| == |s.a|
    ensures (forall i :: 0 <= i < |s.a| ==> Dot(s.a[i], x) == s.b[i]) <==>
            (forall i :: 0 <= i < |s.a| ==> Dot(Reduced(s, 0).a[i], x) == Reduced(s, 0).y[i])
  {
    ReducedKeepsSolutionsFrom(s, 0, x);
    SolvedByEnds(s, x);
    SolvedByEnds(Reduced(s, 0), x);
  }

  /** Before step 0 every row's right-hand side is in b; after step N, in y. */
  lemma SolvedByEnds(s: State, x: seq<real>)
    requires Shaped(s) && |x| == |s.a|
    ensures SolvedBy(s, 0, x) <==> forall i :: 0 <= i < |s.a| ==> Dot(s.a[i], x) == s.b[i]
    ensures SolvedBy(s, |s.a|, x) <==> forall i :: 0 <= i < |s.a| ==> Dot(s.a[i], x) == s.y[i]
  {
    var l := Apply(s.a, x);
    assert forall i :: 0 <= i < |s.a| ==> l[i] == Dot(s.a[i], x);
  }
}
