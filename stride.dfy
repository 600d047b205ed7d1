/**
 * The strided work split of gaussianpar.c. In pivot step k, worker `tid`
 * of T runs `for (j = k + 1 + tid; j < N; j += T)` over the columns of the
 * division step and the same loop over the rows of the elimination step.
 * With `base = k + 1`, worker `tid` visits exactly the indices
 * `base + tid + m * T` for m >= 0.
 */
module Stride {

  /** Index c is visited by worker tid's loop that starts at base + tid and steps by T. */
  predicate InSlice(base: int, tid: int, T: int, c: int)
    requires T > 0
  {
    base + tid <= c && (c - base - tid) % T == 0
  }

  /** The worker that owns index c >= base under round-robin assignment. */
  function Owner(base: int, T: int, c: int): (tid: int)
    requires T > 0
    ensures 0 <= tid < T
  {
    (c - base) % T
  }

  /** Euclidean division is unique: x = q * T + r with 0 <= r < T fixes q and r. */
  lemma DivModUnique(x: int, T: int, q: int, r: int)
    requires T > 0 && 0 <= r < T && x == q * T + r
    ensures x / T == q && x % T == r
  {
    var q', r' := x / T, x % T;
    assert x == q' * T + r';
    assert (q - q') * T == r' - r;
    if q > q' {
      assert (q - q') * T >= T by { MulAtLeast(q - q', T); }
    } else if q < q' {
      assert (q' - q) * T >= T by { MulAtLeast(q' - q, T); }
    }
  }

  lemma MulAtLeast(m: int, T: int)
    requires m >= 1 && T > 0
    ensures m * T >= T
  {
    assert m * T == (m - 1) * T + T;
    assert (m - 1) * T >= 0;
  }

  /**
   * The strided slices partition [base, ∞): index c >= base belongs to
   * worker tid's slice exactly when tid is its round-robin owner.
   */
  lemma SliceIsOwner(base: int, tid: int, T: int, c: int)
    requires T > 0 && 0 <= tid < T && base <= c
    ensures InSlice(base, tid, T, c) <==> Owner(base, T, c) == tid
  {
    if InSlice(base, tid, T, c) {
      var m := (c - base - tid) / T;
      DivModUnique(c - base - tid, T, m, 0);
      DivModUnique(c - base, T, m, tid);
    }
    if Owner(base, T, c) == tid {
      var q := (c - base) / T;
      assert c - base == q * T + tid;
      assert q >= 0;
      assert q * T >= 0;
      DivModUnique(c - base - tid, T, q, 0);
    }
  }

  /** Two different workers never visit the same index in one phase. */
  lemma SlicesDisjoint(base: int, T: int, t1: int, t2: int, c: int)
    requires T > 0 && 0 <= t1 < T && 0 <= t2 < T && t1 != t2
    ensures !(InSlice(base, t1, T, c) && InSlice(base, t2, T, c))
  {
    if base <= c {
      SliceIsOwner(base, t1, T, c);
      SliceIsOwner(base, t2, T, c);
    }
  }

  /** Every index at or after base is visited by some worker, namely its owner. */
  lemma SlicesCover(base: int, T: int, c: int)
    requires T > 0 && base <= c
    ensures InSlice(base, Owner(base, T, c), T, c)
  {
    SliceIsOwner(base, Owner(base, T, c), T, c);
  }

  /**
   * One iteration of the strided loop: from a visited index j the loop
   * moves to j + T, skipping nothing that belongs to the slice.
   */
  lemma SliceAdvance(base: int, tid: int, T: int, j: int)
    requires T > 0 && InSlice(base, tid, T, j)
    ensures InSlice(base, tid, T, j + T)
    ensures forall c :: j < c < j + T ==> !InSlice(base, tid, T, c)
  {
    var m := (j - base - tid) / T;
    DivModUnique(j - base - tid, T, m, 0);
    DivModUnique(j + T - base - tid, T, m + 1, 0);
    forall c | j < c < j + T
      ensures !InSlice(base, tid, T, c)
    {
      DivModUnique(c - base - tid, T, m, c - j);
    }
  }
}
