/**
 * The tensor backend operation that the minimum merge layer calls.
 *
 * A tensor is modelled by the flat sequence of its elements: an elementwise
 * operation on two tensors of one shape does not depend on how the elements
 * are laid out in dimensions, so the shape is represented by the length.
 */
module Ops {

  type Tensor = seq<int>

  /** `ops.minimum` on two tensors of the same shape: position by position,
      the smaller of the two elements. No broadcasting is modelled. */
  function Minimum(a: Tensor, b: Tensor): (r: Tensor)
    requires |a| == |b|
    ensures |r| == |a|
    ensures forall k :: 0 <= k < |r| ==> r[k] <= a[k] && r[k] <= b[k]
    ensures forall k :: 0 <= k < |r| ==> r[k] == a[k] || r[k] == b[k]
  {
    seq(|a|, k requires 0 <= k < |a| => if a[k] <= b[k] then a[k] else b[k])
  }

  /** The reduction is commutative ... */
  lemma MinimumCommutes(a: Tensor, b: Tensor)
    requires |a| == |b|
    ensures Minimum(a, b) == Minimum(b, a)
  {
  }

  /** ... associative ... */
  lemma MinimumAssociates(a: Tensor, b: Tensor, c: Tensor)
    requires |a| == |b| == |c|
    ensures Minimum(Minimum(a, b), c) == Minimum(a, Minimum(b, c))
  {
  }

  /** ... and idempotent. */
  lemma MinimumIdempotent(a: Tensor)
    ensures Minimum(a, a) == a
  {
  }
}
