/**
 * The `Minimum` merge layer: it combines a non-empty list of tensors of one
 * shape into a single tensor by folding the backend's elementwise minimum
 * over the list from left to right.
 */
module MinimumMerge {

  import Ops

  type Tensor = Ops.Tensor

  /** All tensors of the list have the shape of the first one. */
  predicate SameShape(inputs: seq<Tensor>)
  {
    forall j :: 0 <= j < |inputs| ==> |inputs[j]| == |inputs[0]|
  }

  /** The left fold of the backend minimum over the list: the first input,
      combined in order with each later one. It is defined by peeling off the
      last input, so that the fold over a prefix extends by one step. */
  function MinAll(inputs: seq<Tensor>): (r: Tensor)
    requires |inputs| > 0 && SameShape(inputs)
    ensures |r| == |inputs[0]|
    decreases |inputs|
  {
    if |inputs| == 1 then inputs[0]
    else
      var init := inputs[..|inputs| - 1];
      assert SameShape(init) by {
        assert forall j :: 0 <= j < |init| ==> init[j] == inputs[j];
      }
      Ops.Minimum(MinAll(init), inputs[|inputs| - 1])
  }

  /** Reference definition of the elementwise minimum of a list, independent
      of any fold order: `t` has the common shape, lies at or below every input
      at every position, and at every position equals some input. */
  ghost predicate IsElementwiseMin(t: Tensor, inputs: seq<Tensor>)
    requires |inputs| > 0 && SameShape(inputs)
  {
    && |t| == |inputs[0]|
    && (forall j, k :: 0 <= j < |inputs| && 0 <= k < |t| ==> t[k] <= inputs[j][k])
    && (forall k :: 0 <= k < |t| ==> exists j :: 0 <= j < |inputs| && t[k] == inputs[j][k])
  }

  /** One more step of the fold: the fold over the first i + 1 inputs is the
      backend minimum of the fold over the first i inputs and input i. */
  lemma {:induction false} MinAllStep(inputs: seq<Tensor>, i: nat)
    requires SameShape(inputs) && 1 <= i < |inputs|
    ensures SameShape(inputs[..i]) && SameShape(inputs[..i + 1])
    ensures |MinAll(inputs[..i])| == |inputs[i]|
    ensures MinAll(inputs[..i + 1]) == Ops.Minimum(MinAll(inputs[..i]), inputs[i])
  {
    var prefix := inputs[..i + 1];
    assert prefix[..i] == inputs[..i];
    assert forall j :: 0 <= j < i + 1 ==> prefix[j] == inputs[j];
  }

  /** Every output element is at most the corresponding element of every input. */
  lemma {:induction false} MinAllLowerBound(inputs: seq<Tensor>, j: nat, k: nat)
    requires |inputs| > 0 && SameShape(inputs)
    requires j < |inputs| && k < |inputs[0]|
    ensures MinAll(inputs)[k] <= inputs[j][k]
  {
    if |inputs| > 1 {
      var init := inputs[..|inputs| - 1];
      assert forall i :: 0 <= i < |init| ==> init[i] == inputs[i];
      if j < |inputs| - 1 {
        MinAllLowerBound(init, j, k);
      }
    }
  }

  /** Every output element is the corresponding element of some input; the
      lemma returns the index of one such input. */
  lemma {:induction false} MinAllAttained(inputs: seq<Tensor>, k: nat) returns (j: nat)
    requires |inputs| > 0 && SameShape(inputs)
    requires k < |inputs[0]|
    ensures j < |inputs| && MinAll(inputs)[k] == inputs[j][k]
  {
    if |inputs| == 1 {
      j := 0;
    } else {
      var last := |inputs| - 1;
      var init := inputs[..last];
      assert forall i :: 0 <= i < |init| ==> init[i] == inputs[i];
      if MinAll(inputs)[k] == inputs[last][k] {
        j := last;
      } else {
        j := MinAllAttained(init, k);
      }
    }
  }

  /** The fold computes the elementwise minimum of the list. */
  lemma {:induction false} MinAllIsElementwiseMin(inputs: seq<Tensor>)
    requires |inputs| > 0 && SameShape(inputs)
    ensures IsElementwiseMin(MinAll(inputs), inputs)
  {
    var r := MinAll(inputs);
    forall j, k | 0 <= j < |inputs| && 0 <= k < |r| ensures r[k] <= inputs[j][k] {
      MinAllLowerBound(inputs, j, k);
    }
    forall k | 0 <= k < |r| ensures exists j :: 0 <= j < |inputs| && r[k] == inputs[j][k] {
      var j := MinAllAttained(inputs, k);
    }
  }

  /** The reference definition determines its tensor uniquely. */
  lemma ElementwiseMinUnique(t: Tensor, u: Tensor, inputs: seq<Tensor>)
    requires |inputs| > 0 && SameShape(inputs)
    requires IsElementwiseMin(t, inputs) && IsElementwiseMin(u, inputs)
    ensures t == u
  {
  }

  /** A tensor is the fold's result exactly when it meets the reference
      definition. */
  lemma {:induction false} MinAllCharacterized(t: Tensor, inputs: seq<Tensor>)
    requires |inputs| > 0 && SameShape(inputs)
    ensures MinAll(inputs) == t <==> IsElementwiseMin(t, inputs)
  {
    MinAllIsElementwiseMin(inputs);
    if IsElementwiseMin(t, inputs) {
      ElementwiseMinUnique(t, MinAll(inputs), inputs);
    }
  }

  /** The result does not depend on the order of the inputs: any permutation
      of the list (the same multiset of tensors) gives the same output. */
  lemma {:induction false} OrderIndependent(xs: seq<Tensor>, ys: seq<Tensor>)
    requires |xs| > 0 && SameShape(xs)
    requires multiset(xs) == multiset(ys)
    ensures |ys| > 0 && SameShape(ys)
    ensures MinAll(ys) == MinAll(xs)
  {
    assert xs[0] in multiset(xs);
    assert |ys| > 0;
    // every tensor of ys occurs in xs, and conversely
    assert forall j :: 0 <= j < |ys| ==> ys[j] in multiset(xs);
    assert forall i :: 0 <= i < |xs| ==> xs[i] in multiset(ys);
    assert SameShape(ys);
    var r := MinAll(xs);
    MinAllIsElementwiseMin(xs);
    forall j, k | 0 <= j < |ys| && 0 <= k < |r| ensures r[k] <= ys[j][k] {
      var i :| 0 <= i < |xs| && xs[i] == ys[j];
    }
    forall k | 0 <= k < |r| ensures exists j :: 0 <= j < |ys| && r[k] == ys[j][k] {
      var i :| 0 <= i < |xs| && r[k] == xs[i][k];
      var j :| 0 <= j < |ys| && ys[j] == xs[i];
    }
    assert IsElementwiseMin(r, ys);
    MinAllCharacterized(r, ys);
  }

  /** A list made of copies of one tensor yields that tensor. */
  lemma {:induction false} CopiesYieldSame(x: Tensor, inputs: seq<Tensor>)
    requires |inputs| > 0
    requires forall j :: 0 <= j < |inputs| ==> inputs[j] == x
    ensures SameShape(inputs) && MinAll(inputs) == x
  {
    assert forall k :: 0 <= k < |x| ==> x[k] == inputs[0][k];
    MinAllCharacterized(x, inputs);
  }

  /** A concrete case: two tensors of shape (3,) give their positionwise minimum. */
  lemma TwoInputsExample()
    ensures MinAll([[1, 5, 3], [4, 2, 6]]) == [1, 2, 3]
  {
  }

  /** `Minimum._merge_function`: start from the first input and combine it
      with each later input in turn using the backend minimum. The output is
      the elementwise minimum of the list (which, by ElementwiseMinUnique and
      MinAllCharacterized, is exactly the fold MinAll); a one-element list is
      returned unchanged. */
  method MergeFunction(inputs: seq<Tensor>) returns (output: Tensor)
    requires |inputs| > 0 && SameShape(inputs)
    ensures IsElementwiseMin(output, inputs)
    ensures |inputs| == 1 ==> output == inputs[0]
  {
    output := inputs[0];
    var i := 1;
    while i < |inputs|
      invariant 1 <= i <= |inputs|
      invariant SameShape(inputs[..i])
      invariant output == MinAll(inputs[..i])
    {
      MinAllStep(inputs, i);
      output := Ops.Minimum(output, inputs[i]);
      i := i + 1;
    }
    assert inputs[..i] == inputs;
    MinAllIsElementwiseMin(inputs);
  }

  /** The functional interface `minimum(inputs)`: build a `Minimum` layer and
      apply it to the inputs. It returns what the layer's merge function
      returns: the elementwise minimum of the inputs. */
  method Minimum(inputs: seq<Tensor>) returns (output: Tensor)
    requires |inputs| > 0 && SameShape(inputs)
    ensures IsElementwiseMin(output, inputs)
  {
    output := MergeFunction(inputs);
  }
}
