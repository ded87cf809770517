/**
 * Batch summaries: a batch of per-item attempts that tolerates individual
 * failures is judged by how many of its items succeeded.
 */
module Batches {

  /** The number of successful items. */
  function CountTrue(bs: seq<bool>): (n: nat)
    ensures n <= |bs|
    ensures n == |bs| <==> forall i :: 0 <= i < |bs| ==> bs[i]
  {
    if bs == [] then 0 else (if bs[0] then 1 else 0) + CountTrue(bs[1..])
  }

  /** Exactly one failing item costs exactly one success: N items, one failure, N - 1 successes. */
  lemma {:induction false} OneFailureCostsOne(bs: seq<bool>, f: nat)
    requires f < |bs| && !bs[f]
    requires forall i :: 0 <= i < |bs| && i != f ==> bs[i]
    ensures CountTrue(bs) == |bs| - 1
  {
    if f > 0 {
      OneFailureCostsOne(bs[1..], f - 1);
    } else {
      assert CountTrue(bs[1..]) == |bs| - 1;
    }
  }
}
