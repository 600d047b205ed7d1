/**
 * Small worked runs of the elimination, computed exactly on reals. y
 * starts at 1.0, as the initialiser leaves it; its starting value is
 * overwritten (GaussSpec.ReducedOverwritesY).
 */
module Scenarios {
  import opened GaussSpec

  /**
   * N = 2, A = [[2, 1], [1, 3]], b = [3, 4]: step 0 divides row 0 to
   * [1, 0.5], captures y[0] = 1.5 and reduces row 1 to [0, 2.5] with
   * b[1] = 2.5; step 1 captures y[1] = 1.0.
   */
  lemma TwoByTwo()
    ensures PivotsNonzero(State([[2.0, 1.0], [1.0, 3.0]], [3.0, 4.0], [1.0, 1.0]), 0)
    ensures Reduced(State([[2.0, 1.0], [1.0, 3.0]], [3.0, 4.0], [1.0, 1.0]), 0)
         == State([[1.0, 0.5], [0.0, 1.0]], [3.0, 2.5], [1.5, 1.0])
  {
    var s0 := State([[2.0, 1.0], [1.0, 3.0]], [3.0, 4.0], [1.0, 1.0]);
    var s1 := State([[1.0, 0.5], [0.0, 2.5]], [3.0, 2.5], [1.5, 1.0]);
    var s2 := State([[1.0, 0.5], [0.0, 1.0]], [3.0, 2.5], [1.5, 1.0]);
    var p1 := Pivoted(s0, 0);
    assert p1.a[0] == s1.a[0] && p1.a[1] == s1.a[1];
    assert p1 == s1;
    var p2 := Pivoted(s1, 1);
    assert p2.a[0] == s2.a[0] && p2.a[1] == s2.a[1];
    assert p2 == s2;
    assert PivotsNonzero(s2, 2);
    assert PivotsNonzero(s1, 1);
  }
}
