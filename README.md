# Keras `Minimum` merge layer

This project models the `Minimum` merge layer of Keras
(`keras/src/layers/merging/minimum.py`). The layer takes a list of tensors,
all the same shape, and returns one tensor of that shape: the elementwise
minimum of the inputs.

Its merge function is a left fold. The output starts as the first input, and
each later input is combined into it with the backend operation
`ops.minimum`. The functional entry point `minimum(inputs)` builds a layer and
applies it to the inputs.

How the model represents it:

- A tensor is the flat sequence of its elements (`Ops.Tensor = seq<int>`). Elementwise operations do not depend on how the elements are arranged in dimensions, so a shape is represented by the sequence's length.
- `ops.minimum` is `Ops.Minimum`: position by position, the smaller of two elements of tensors of one shape.
- The fold is specified by the function `MinimumMerge.MinAll`. It is checked against an independent reference definition, `MinimumMerge.IsElementwiseMin`: the output has the common shape, sits at or below every input at every position, and at every position equals some input's element.
- `MinimumMerge.MergeFunction` is the source's loop, written as a `while` loop. Its invariant is that the accumulator is the fold of the inputs seen so far. Its contract says the output meets the reference definition. That definition determines the tensor uniquely, so the output is exactly `MinAll(inputs)`.

Preconditions. The merge function reads `inputs[0]` unconditionally and does not handle an empty list, so the list must be non-empty. The class documentation requires all inputs to have one shape, and the model requires that too (`SameShape`). Shape checking and arity checking belong to the `Merge` base class, which is not part of this model.

The merge function needs only a non-empty list: with one input the loop at minimum.py:35 runs zero times and `inputs[0]` is returned unchanged; `MergeFunction` states this case in its contract.

The docstring of `minimum` calls the result an "elementwise product" (minimum.py:49). The code computes a minimum, and the model follows the code.

## Model

| member | source | states |
|---|---|---|
| `Ops.Minimum` | keras/src/layers/merging/minimum.py:36 | the backend minimum keeps the shape, and each output element is at most both operands' elements and equal to one of them |
| `Ops.MinimumCommutes` | keras/src/layers/merging/minimum.py:36 | the pairwise minimum does not depend on operand order |
| `Ops.MinimumAssociates` | keras/src/layers/merging/minimum.py:35-36 | the pairwise minimum is associative on three tensors of one shape |
| `Ops.MinimumIdempotent` | keras/src/layers/merging/minimum.py:36 | the minimum of a tensor with itself is that tensor |
| `MinimumMerge.MinAll` | keras/src/layers/merging/minimum.py:33-37 | the fold's output has the shape shared by all the inputs |
| `MinimumMerge.MinAllStep` | keras/src/layers/merging/minimum.py:35-36 | the fold over the first i+1 inputs equals the backend minimum of the fold over the first i inputs and input i (one loop iteration) |
| `MinimumMerge.MinAllLowerBound` | keras/src/layers/merging/minimum.py:34-36 | every output element is at most the corresponding element of every input |
| `MinimumMerge.MinAllAttained` | keras/src/layers/merging/minimum.py:34-36 | every output element equals the corresponding element of some input, whose index is returned |
| `MinimumMerge.MinAllIsElementwiseMin` | keras/src/layers/merging/minimum.py:8-11 | the fold meets the order-free reference definition of the elementwise minimum of the list |
| `MinimumMerge.ElementwiseMinUnique` | keras/src/layers/merging/minimum.py:8 | at most one tensor meets the reference definition for a given list |
| `MinimumMerge.MinAllCharacterized` | keras/src/layers/merging/minimum.py:33-37 | a tensor is the fold's output if and only if it meets the reference definition |
| `MinimumMerge.OrderIndependent` | keras/src/layers/merging/minimum.py:33-37 | any permutation of the inputs (same multiset) is again a valid input list and gives the same output |
| `MinimumMerge.CopiesYieldSame` | keras/src/layers/merging/minimum.py:34-36 | a list of copies of one tensor x yields x |
| `MinimumMerge.TwoInputsExample` | keras/src/layers/merging/minimum.py:33-37 | inputs [1,5,3] and [4,2,6] yield [1,2,3] |
| `MinimumMerge.MergeFunction` | keras/src/layers/merging/minimum.py:33-37 | the loop's output is the elementwise minimum of the inputs (reference definition, so by uniqueness exactly the fold); with one input it returns that input unchanged |
| `MinimumMerge.Minimum` | keras/src/layers/merging/minimum.py:40-70 | the functional interface returns what the layer's merge function returns, the elementwise minimum of the inputs |

## Left out

- `MinAll`, `MergeFunction`, `Minimum`: an empty list raises IndexError at minimum.py:34; the model requires a non-empty list instead of modelling that error.
- The `Merge` base class (`keras/src/layers/merging/base_merge.py`) is not part of this model. That leaves out shape validation, broadcasting between different shapes, mask propagation, arity errors and build-time caching. The model's `SameShape` precondition stands in for the shape checks.
- The internals of `ops.minimum`: it is a backend call, modelled by its name's meaning on tensors of one shape. Broadcasting and NaN handling are not modelled.
- Floating-point values: elements are unbounded integers. NaN and signed-zero behaviour are not modelled.
- Multi-dimensional layout: a tensor is flat, because the operation is elementwise.
- Layer plumbing: `keras_export` registration, the construction keyword arguments of `minimum` (name, dtype, trainable, ...), graph building, the model-usage examples in the docstrings, and automatic differentiation. None of these changes the values computed.
