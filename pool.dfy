/**
 * The worker pool of gaussianpar.c: T workers with identities 0 .. T-1,
 * where the calling thread runs as worker 0 after creating workers
 * 1 .. T-1. Inside one barrier-delimited phase the workers' writes are
 * disjoint, so a phase is modelled as the workers running one after the
 * other in some order; a schedule is such an order.
 */
module Pool {

  /** order runs every worker identity in [0, T) exactly once. */
  predicate IsSchedule(order: seq<int>, T: int)
  {
    && |order| == T
    && (forall p :: 0 <= p < |order| ==> 0 <= order[p] < T)
    && (forall p, q :: 0 <= p < q < |order| ==> order[p] != order[q])
    && (forall tid :: 0 <= tid < T ==> tid in order)
  }

  /**
   * The identities handed out by `work`: created workers get i + 1 for
   * i in [0, T - 1), then the calling thread runs as worker 0.
   */
  method SpawnOrder(T: int) returns (order: seq<int>)
    requires T >= 1
    ensures IsSchedule(order, T)
    ensures order[T - 1] == 0
  {
    order := [];
    var i := 0;
    while i < T - 1
      invariant 0 <= i <= T - 1
      invariant |order| == i
      invariant forall p :: 0 <= p < i ==> order[p] == p + 1
    {
      order := order + [i + 1];
      i := i + 1;
    }
    order := order + [0];
    forall tid | 0 <= tid < T
      ensures tid in order
    {
      if tid == 0 {
        assert order[T - 1] == tid;
      } else {
        assert order[tid - 1] == tid;
      }
    }
  }
}
