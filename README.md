# The NumPy array-operation backend of TensorFlow Probability, in Dafny

TensorFlow Probability can run on NumPy instead of TensorFlow. A compatibility layer,
`tensorflow_probability/python/internal/backend/numpy/numpy_array.py`, provides the
TensorFlow array operations on top of NumPy. Most of its entries hand their arguments
straight to NumPy. A few carry translation logic of their own, and those are modelled here:

- `split` turns TensorFlow's list of piece sizes into NumPy's cut points. A `-1` size stands
  for the remainder of the axis. The cut points are the running sums without the last one.
- `slice` turns `(begin, size)` pairs into Python slices.
- `one_hot` builds an indicator array with a trailing axis of length `depth`.
- `gather` refuses two unsupported arguments, then uses `np.take`. `gather_nd` is always
  refused.
- `reverse` flips one axis, or each axis of a list in turn.
- `range` is `np.arange`, and `unstack` splits and squeezes.
- `shape`, `size` and `rank` read an array's shape.
- `fill`, `ones`, `zeros`, `ones_like` and `zeros_like` build constant arrays.
- `pad` is modelled in its `CONSTANT` mode.

An N-dimensional integer array is a `Tensors.Tensor`. It is either a `Scalar` or an `Array`
of items, and it records the shape every item has, so an empty array keeps its full shape.
`Valid` says the array is rectangular. `Shape` is NumPy's `.shape`. `At(t, idx)` is the
element at a multi-index.

Errors are values of `Result`. NotImplementedError is `NotImplemented`. NumPy's AxisError,
IndexError and ValueError each have a variant, and so does Python's ZeroDivisionError.

Each operation is specified in two ways:

- a shape lemma, which says the result is rectangular and gives its shape;
- an element lemma, which relates each element of the result to an element of the input.

Properties that relate several operations are proved as lemmas. They include:

- reversing twice gives back the input;
- splitting and then rejoining gives back the items;
- slicing off the padding gives back the array;
- `unstack` along the first axis gives the items themselves.

The two parts that rebind a local variable step by step are methods with loops:

- `_reverse` loops over its axes (`Reverse.Reverse`);
- `_split` computes its cut points (`Split.SplitPoints`, through `Split.ResolveSizes` and
  `Split.CumulativeSums`).

Each of these methods is proved equal to a specification function.

`split` and `unstack` differ on a section count of zero. `_split` wraps the count in a NumPy
array, so NumPy's remainder by zero gives 0 and `np.array_split` then refuses the count with
a ValueError. `unstack` passes a plain integer, so the remainder raises Python's
ZeroDivisionError.

## Model

Source paths are relative to the repository root.

| member | source | states |
|---|---|---|
| Tensors.NormalizeAxis | tensorflow_probability/python/internal/backend/numpy/numpy_array.py:145-150 | an axis is accepted exactly when it lies in [-rank, rank), and a negative one counts from the end |
| Tensors.FlattenLength | tensorflow_probability/python/internal/backend/numpy/numpy_array.py:167-168 | a rectangular array has as many elements as the product of its shape |
| ArrayShape.ShapeOf | tensorflow_probability/python/internal/backend/numpy/numpy_array.py:163-164 | the shape's entries multiply out to the number of elements; only a scalar has the empty shape; an array's shape is its number of items followed by the shape every item has |
| ArrayShape.Size | tensorflow_probability/python/internal/backend/numpy/numpy_array.py:167-168 | `size` is the number of elements of the array |
| ArrayShape.Rank | tensorflow_probability/python/internal/backend/numpy/numpy_array.py:269-271 | the rank is the length of the shape: 0 exactly for a scalar, and one more than the rank of each item otherwise |
| ArrayShape.Fill | tensorflow_probability/python/internal/backend/numpy/numpy_array.py:219-221 | `fill` succeeds exactly when no dimension is negative (ValueError otherwise); the result has shape `dims` and holds `value` at every index |
| ArrayShape.Ones | tensorflow_probability/python/internal/backend/numpy/numpy_array.py:250-253 | `ones` gives the requested shape with 1 at every index, and fails on a negative dimension |
| ArrayShape.Zeros | tensorflow_probability/python/internal/backend/numpy/numpy_array.py:323-326 | `zeros` gives the requested shape with 0 at every index, and fails on a negative dimension |
| ArrayShape.OnesLike | tensorflow_probability/python/internal/backend/numpy/numpy_array.py:125-128 | `ones_like` keeps the input's shape and holds 1 at every index |
| ArrayShape.ZerosLike | tensorflow_probability/python/internal/backend/numpy/numpy_array.py:200-203 | `zeros_like` keeps the input's shape and holds 0 at every index |
| Range.Range | tensorflow_probability/python/internal/backend/numpy/numpy_array.py:263-267 | `range` succeeds exactly for a non-zero step; a zero step is a ZeroDivisionError |
| Range.CountBound | tensorflow_probability/python/internal/backend/numpy/numpy_array.py:265-267 | step `i` is among the counted steps exactly when `start + i * delta` lies before the stop (below it for a positive step, above it for a negative one) |
| Range.RangeSpec | tensorflow_probability/python/internal/backend/numpy/numpy_array.py:263-267 | the result is one-dimensional; `start + i * delta` is in it exactly when it lies before the limit, and it is element `i`; with no limit, it counts from 0 up to `start` |
| Range.RangeUpTo | tensorflow_probability/python/internal/backend/numpy/numpy_array.py:263-267 | `range(n)` is `0, 1, ..., n - 1`, and empty for a negative `n` |
| Gather.Wrap | tensorflow_probability/python/internal/backend/numpy/numpy_array.py:86 | an index in [-n, n) names a position in [0, n), counting from the end when negative |
| Gather.PickShape | tensorflow_probability/python/internal/backend/numpy/numpy_array.py:86 | taking rows along the first axis gives a rectangular array of shape `indices.shape + row shape` |
| Gather.TakeShape | tensorflow_probability/python/internal/backend/numpy/numpy_array.py:86 | `np.take` along axis `k` replaces axis `k` of the shape by the indices' shape |
| Gather.PickAt | tensorflow_probability/python/internal/backend/numpy/numpy_array.py:86 | the element of a first-axis take at `j + rest` is element `rest` of the row that `indices[j]` names |
| Gather.TakeAt | tensorflow_probability/python/internal/backend/numpy/numpy_array.py:86 | the element of `np.take(p, ind, axis=k)` at `pre + j + post` is the element of `p` at `pre + [ind[j]] + post` |
| Gather.TakeFirstAt | tensorflow_probability/python/internal/backend/numpy/numpy_array.py:86 | the first-axis case of `TakeAt` |
| Gather.GatherAsWritten | tensorflow_probability/python/internal/backend/numpy/numpy_array.py:72-86 | `validate_indices` other than None is NotImplemented with its message, then `batch_dims` other than 0 is; NotImplemented arises exactly in those two cases |
| Gather.Gather | tensorflow_probability/python/internal/backend/numpy/numpy_array.py:72-86 | the same refusals, with the same messages, and exactly in those two cases |
| Gather.GatherExplicitAxis | tensorflow_probability/python/internal/backend/numpy/numpy_array.py:72-86 | with an explicit axis the code as written equals the corrected `gather`, so the along-axis properties hold of the code as written |
| Gather.GatherAlongAxis | tensorflow_probability/python/internal/backend/numpy/numpy_array.py:80-86 | a bad axis is an AxisError; otherwise the result exists exactly when every index lies in [-n, n), and is an IndexError when one does not; the shape is the axis replaced by the indices' shape; each element is the one the index selects |
| Gather.GatherDefaultAxis | tensorflow_probability/python/internal/backend/numpy/numpy_array.py:72-86 | with the default axis a scalar cannot be gathered from (AxisError); an array gives `indices.shape + item shape` exactly when every index is in range, and an IndexError otherwise |
| Gather.GatherDefaultAxisAt | tensorflow_probability/python/internal/backend/numpy/numpy_array.py:72-86 | with the default axis, the element at `j + post` is element `post` of the item `indices[j]` names |
| Gather.GatherVector | tensorflow_probability/python/internal/backend/numpy/numpy_array.py:80-86 | in one dimension the result has one element per index and element `k` is `params[indices[k]]`; an index outside [-n, n) is an IndexError; here the code as written and the corrected one agree |
| Gather.GatherDefaultAxisFlattens | tensorflow_probability/python/internal/backend/numpy/numpy_array.py:76-86 | for `[[1, 2], [3, 4]]` and `[1]` the code as written gives `[2]`, while gathering along axis 0 gives `[[3, 4]]` |
| Gather.GatherNd | tensorflow_probability/python/internal/backend/numpy/numpy_array.py:89-95 | `gather_nd` is NotImplemented whatever its arguments |
| OneHot.OneHot | tensorflow_probability/python/internal/backend/numpy/numpy_array.py:98-117 | `one_hot` succeeds exactly for a non-negative depth; a negative depth is a ValueError |
| OneHot.EncodeShape | tensorflow_probability/python/internal/backend/numpy/numpy_array.py:112-117 | the encoding is rectangular, with the indices' shape followed by `depth` |
| OneHot.EncodeAt | tensorflow_probability/python/internal/backend/numpy/numpy_array.py:115-117 | entry `idx + [j]` is the on value when `indices[idx] == j` and the off value otherwise |
| OneHot.OneHotSpec | tensorflow_probability/python/internal/backend/numpy/numpy_array.py:107-117 | the output adds a trailing axis of length `depth`; entry `j` of a row is `on_value` (default 1) exactly when `j` equals the index, and `off_value` (default 0) otherwise |
| OneHot.OneHotOutOfRange | tensorflow_probability/python/internal/backend/numpy/numpy_array.py:115-117 | an index outside [0, depth) gives a row that is all `off_value` |
| OneHot.OneHotInRange | tensorflow_probability/python/internal/backend/numpy/numpy_array.py:115-117 | an index inside [0, depth) gives a row with `on_value` at the index and `off_value` everywhere else |
| Reverse.Flip | tensorflow_probability/python/internal/backend/numpy/numpy_array.py:147 | a flip keeps the shape |
| Reverse.FlipValid | tensorflow_probability/python/internal/backend/numpy/numpy_array.py:147 | a flip of a rectangular array is rectangular |
| Reverse.FlipAt | tensorflow_probability/python/internal/backend/numpy/numpy_array.py:147 | flipping axis `k` puts the element at position `i` along that axis at `n - 1 - i`, leaving the other coordinates alone |
| Reverse.FlipInvolution | tensorflow_probability/python/internal/backend/numpy/numpy_array.py:147 | flipping the same axis twice gives back the array |
| Reverse.FlipCommute | tensorflow_probability/python/internal/backend/numpy/numpy_array.py:148-149 | flips along two axes commute |
| Reverse.FlipVector | tensorflow_probability/python/internal/backend/numpy/numpy_array.py:147 | flipping a one-dimensional array reverses its elements |
| Reverse.FlipAll | tensorflow_probability/python/internal/backend/numpy/numpy_array.py:148-149 | flipping along a list of axes in turn keeps the shape |
| Reverse.FlipAllValid | tensorflow_probability/python/internal/backend/numpy/numpy_array.py:148-149 | flipping along a list of axes keeps the array rectangular |
| Reverse.Reverse | tensorflow_probability/python/internal/backend/numpy/numpy_array.py:145-150 | the loop that rebinds the array to its flip along each axis computes `ReverseSpec`: one flip for a single axis, the flips of the list in order, and an AxisError for an axis outside [-rank, rank) |
| Reverse.NormalizedSnoc | tensorflow_probability/python/internal/backend/numpy/numpy_array.py:148-149 | accepting one more axis appends its normalized form to the flips done so far |
| Reverse.FlipPastAll | tensorflow_probability/python/internal/backend/numpy/numpy_array.py:148-149 | one flip can be moved past a whole list of flips |
| Reverse.FlipAllTwice | tensorflow_probability/python/internal/backend/numpy/numpy_array.py:148-149 | flipping along the same list twice gives back the array |
| Reverse.ReverseTwice | tensorflow_probability/python/internal/backend/numpy/numpy_array.py:145-150 | a successful `reverse` keeps the shape and rectangularity, and reversing its result along the same axes gives back the input |
| Reverse.ReverseVector | tensorflow_probability/python/internal/backend/numpy/numpy_array.py:145-147 | in one dimension, axis 0 or -1 reverses the sequence and axis 1 is an AxisError |
| Reverse.ReverseSingleAt | tensorflow_probability/python/internal/backend/numpy/numpy_array.py:146-147 | for a single axis, each element of the result is the input's element mirrored along that axis |
| Slicing.Clamp | tensorflow_probability/python/internal/backend/numpy/numpy_array.py:176-177 | a Python slice index lands in [0, n], and one already in [0, n] is kept |
| Slicing.ClampOutside | tensorflow_probability/python/internal/backend/numpy/numpy_array.py:176-177 | a negative slice index counts from the end and becomes 0 when it reaches before the start; one past the end becomes `n` |
| Slicing.Positions | tensorflow_probability/python/internal/backend/numpy/numpy_array.py:176-177 | `s[start:stop]` keeps positions `lo <= hi <= n`; an open stop runs to the end; an in-range stop is kept; a stop at or before the start keeps nothing |
| Slicing.SlicedShapeAt | tensorflow_probability/python/internal/backend/numpy/numpy_array.py:175-177 | a sliced axis keeps the extent of its range, and an axis no slice reaches keeps its extent |
| Slicing.LowsAt | tensorflow_probability/python/internal/backend/numpy/numpy_array.py:175-177 | the offset on each sliced axis is where its slice starts |
| Slicing.Bounds | tensorflow_probability/python/internal/backend/numpy/numpy_array.py:175-176 | `zip` pairs begins and sizes up to the shorter list |
| Slicing.Slice | tensorflow_probability/python/internal/backend/numpy/numpy_array.py:174-177 | more slices than axes is an IndexError, and any other slicing succeeds |
| Slicing.SliceShape | tensorflow_probability/python/internal/backend/numpy/numpy_array.py:177 | slicing keeps the array rectangular, and each sliced axis shrinks to its range |
| Slicing.SliceAt | tensorflow_probability/python/internal/backend/numpy/numpy_array.py:177 | the element at `idx` of the slice is the input's element at `idx` moved by each axis's first kept position |
| Slicing.WithinBoundsLows | tensorflow_probability/python/internal/backend/numpy/numpy_array.py:175-176 | for in-range pairs, each axis's offset is its `begin` |
| Slicing.WithinBoundsShape | tensorflow_probability/python/internal/backend/numpy/numpy_array.py:175-177 | for in-range pairs, axis `k` keeps `size[k]` entries, or `dim - begin[k]` for -1, and the remaining axes are whole |
| Slicing.SliceWithinBounds | tensorflow_probability/python/internal/backend/numpy/numpy_array.py:174-177 | for in-range pairs, `slice` succeeds, keeps `size` entries (`dim - begin` for -1) along each given axis, and its element at `idx` is the input's element at `idx + begin` |
| Slicing.SliceVector | tensorflow_probability/python/internal/backend/numpy/numpy_array.py:174-177 | in one dimension, `slice(xs, [b], [s])` is `xs[b..b+s]`, or `xs[b..]` for -1 |
| Split.RunningSumsAt | tensorflow_probability/python/internal/backend/numpy/numpy_array.py:191 | entry `i` of `np.cumsum` is the sum of the first `i + 1` entries |
| Split.SplitPoints | tensorflow_probability/python/internal/backend/numpy/numpy_array.py:182-191 | the cut points are the running sums, without the last one, of the sizes with every -1 replaced by the remainder |
| Split.ResolveSizes | tensorflow_probability/python/internal/backend/numpy/numpy_array.py:184-190 | the two loops replace every -1 by `max(0, dim - sum of the other sizes)` and keep every other size, and leave a list without -1 alone |
| Split.CumulativeSums | tensorflow_probability/python/internal/backend/numpy/numpy_array.py:191 | the loop computes `np.cumsum`: entry `i` is the sum of the first `i + 1` sizes |
| Split.Split | tensorflow_probability/python/internal/backend/numpy/numpy_array.py:180-192 | `_split` with its cut points from `SplitPoints` is `SplitSpec` |
| Split.SplitErrors | tensorflow_probability/python/internal/backend/numpy/numpy_array.py:180-192 | a bad axis is an IndexError; a size list is always accepted; a section count is accepted exactly when it is positive and divides the axis, and every refusal of a count (zero included) is a ValueError |
| Split.SplitCount | tensorflow_probability/python/internal/backend/numpy/numpy_array.py:183-192 | there is one piece per size (one piece for an empty list), or the requested number of sections |
| Split.FilledSum | tensorflow_probability/python/internal/backend/numpy/numpy_array.py:186-190 | once every -1 is replaced by `v`, the sizes sum to the known sizes plus `v` per placeholder |
| Split.ResolveSpec | tensorflow_probability/python/internal/backend/numpy/numpy_array.py:184-190 | each -1 becomes `max(0, dim - sum of the other sizes)` and every other size is kept; with one -1 among sizes that fit the axis, the sizes then add up to the axis |
| Split.HolesIn | tensorflow_probability/python/internal/backend/numpy/numpy_array.py:184 | there is a placeholder exactly when -1 occurs in the list |
| Split.DivisionsAt | tensorflow_probability/python/internal/backend/numpy/numpy_array.py:191-192 | for sizes that add up to the axis, boundary `i` is the sum of the first `i` sizes |
| Split.SumMonotone | tensorflow_probability/python/internal/backend/numpy/numpy_array.py:191 | running sums of non-negative sizes never decrease |
| Split.PieceShape | tensorflow_probability/python/internal/backend/numpy/numpy_array.py:192 | a piece is rectangular and keeps every axis but the split axis, which it cuts to the piece's range |
| Split.PieceAt | tensorflow_probability/python/internal/backend/numpy/numpy_array.py:192 | the element of a piece at `idx` is the input's element at `idx` moved along the split axis by the piece's start |
| Split.PieceWithin | tensorflow_probability/python/internal/backend/numpy/numpy_array.py:192 | a piece `lo:hi` inside the axis has extent `hi - lo` along it, and its element at `idx` is the input's element moved by `lo` |
| Split.SizesPiece | tensorflow_probability/python/internal/backend/numpy/numpy_array.py:191-192 | for non-negative sizes that add up to the axis, piece `i` runs from the sum of the sizes before it to that sum plus `sizes[i]` |
| Split.SplitSizes | tensorflow_probability/python/internal/backend/numpy/numpy_array.py:182-192 | for non-negative sizes that add up to the axis, `split` succeeds with one piece per size; piece `i` has length `sizes[i]` along the axis, and its element at `idx` is the input's element moved by the sizes before it |
| Split.SectionsAreSizes | tensorflow_probability/python/internal/backend/numpy/numpy_array.py:192 | splitting into `n` sections that divide the axis is splitting into `n` sizes of `dim / n` |
| Split.EvenDivisions | tensorflow_probability/python/internal/backend/numpy/numpy_array.py:192 | the boundaries of `n` equal sections are the running sums of `n` sizes of `dim / n`, which need no resolving |
| Split.SplitSections | tensorflow_probability/python/internal/backend/numpy/numpy_array.py:192 | a section count that divides the axis gives that many pieces, each `dim / n` long along the axis and keeping every other extent |
| Split.RejoinPieces | tensorflow_probability/python/internal/backend/numpy/numpy_array.py:191-192 | along the first axis, the pieces between non-decreasing boundaries, joined, are the items from the first boundary to the last |
| Split.SplitThenRejoin | tensorflow_probability/python/internal/backend/numpy/numpy_array.py:182-192 | splitting the first axis into non-negative sizes that add up to it, then joining the pieces, gives back the items |
| Split.ResolvePlaceholder | tensorflow_probability/python/internal/backend/numpy/numpy_array.py:184-192 | with one -1 among non-negative sizes whose sum fits the axis, the resolved sizes are non-negative, add up to the axis, and `split` cuts the original list exactly as it cuts the resolved one |
| Split.SplitPlaceholder | tensorflow_probability/python/internal/backend/numpy/numpy_array.py:182-192 | with one -1 among non-negative sizes that fit the axis, `split` gives one piece per size; piece `i` has extent `Resolve(sizes, dim)[i]` along the axis, and its element at `idx` is the input's element moved by the resolved sizes before it |
| Split.SplitPlaceholderThenRejoin | tensorflow_probability/python/internal/backend/numpy/numpy_array.py:182-192 | with one -1 among non-negative sizes that fit the first axis, splitting and then joining the pieces gives back the items |
| Unstack.SqueezeShape | tensorflow_probability/python/internal/backend/numpy/numpy_array.py:316 | squeezing an axis of extent one keeps the array rectangular and removes that axis from the shape |
| Unstack.SqueezeAt | tensorflow_probability/python/internal/backend/numpy/numpy_array.py:316 | the squeezed array's element at `idx` is the input's element with position 0 put back on the axis |
| Unstack.UnstackErrors | tensorflow_probability/python/internal/backend/numpy/numpy_array.py:313-317 | a bad axis is an IndexError; `unstack` succeeds exactly when the count (`num`, or the axis's extent) equals the extent and is positive; a zero count, passed to `np.split` as a plain integer, is a ZeroDivisionError, and any other count a ValueError |
| Unstack.UnstackSection | tensorflow_probability/python/internal/backend/numpy/numpy_array.py:315-317 | result `i` is section `i` of the split into pieces of extent one, squeezed |
| Unstack.UnitSection | tensorflow_probability/python/internal/backend/numpy/numpy_array.py:317 | section `i` of that split has extent one along the axis and holds the input's elements at position `i` of the axis |
| Unstack.UnstackAt | tensorflow_probability/python/internal/backend/numpy/numpy_array.py:313-317 | there is one result per position along the axis; result `i` drops the axis from the shape, and its element at `idx` is the input's element with `i` inserted on the axis |
| Unstack.UnstackFirst | tensorflow_probability/python/internal/backend/numpy/numpy_array.py:313-317 | along the first axis, `unstack` gives the items themselves |
| Pad.Widen | tensorflow_probability/python/internal/backend/numpy/numpy_array.py:139-142 | accepted paddings give one `(before, after)` pair per axis |
| Pad.PadShape | tensorflow_probability/python/internal/backend/numpy/numpy_array.py:139-142 | constant padding keeps the array rectangular and grows each axis by its two widths |
| Pad.PadAt | tensorflow_probability/python/internal/backend/numpy/numpy_array.py:139-142 | inside the copy the padded array holds the original's element at the index minus the `before` widths, and outside it holds the constant |
| Pad.PadSpec | tensorflow_probability/python/internal/backend/numpy/numpy_array.py:133-142 | `pad` succeeds exactly for one non-negative pair, or one per axis, and a refusal is a ValueError; the result grows each axis by its widths and holds the original inside and `constant_values` outside |
| Pad.PadVector | tensorflow_probability/python/internal/backend/numpy/numpy_array.py:133-142 | in one dimension, the result is `before` copies of the constant, then the sequence, then `after` copies, so its length is `before + n + after` |
| Pad.PaddedShapeAt | tensorflow_probability/python/internal/backend/numpy/numpy_array.py:139-142 | padded axis `k` has extent `before + n + after` |
| Pad.InsideShifted | tensorflow_probability/python/internal/backend/numpy/numpy_array.py:139-142 | an index of the original, moved by the `before` widths, lands inside the copy and maps back to itself |
| Pad.PadThenSlice | tensorflow_probability/python/internal/backend/numpy/numpy_array.py:139-142 | slicing the padding off again (`slice` at the `before` widths with the original's shape) gives back the array |

## Left out

- Data types: the `dtype` and `out_type` arguments, `.astype(...)` and `utils.numpy_dtype`
  are not modelled. Elements are unbounded integers, so int32 overflow is not modelled.
- Floating point is not modelled: `linspace` and `norm`, and float-valued `range`, `fill`
  and `one_hot` values.
- OneHot.OneHotSpec: `one_hot` compares an index with the depth positions within a tolerance
  of 0.1, and it builds those positions in float32 (line 115). For integer indices and a depth
  of at most 2^24 + 1, float32 holds every position exactly, and the comparison is equality.
  The model uses equality. For larger depths, float32 rounding of the positions can drop the
  on value from a row or put it there twice. The model does not capture that.
- OneHot.OneHot: the `axis` argument is not modelled. When it is given, the code calls
  `np.moveaxis` (lines 119-120). The model is the default case, with the depth axis last.
- Range.Range: NumPy computes the length of `arange` in floating point. The model uses exact
  integer arithmetic, so huge integer arguments can differ.
- `ones_like` and `zeros_like` fall back to `tf.ones` and `tf.zeros` (lines 129 and 204).
  That fallback calls into TensorFlow, and `_shape` always returns a NumPy array, so the
  model never reaches it.
- Pad.Pad: only the `CONSTANT` mode is modelled. The other modes are NumPy's own padding
  algorithms.
- Pad.Pad: paddings are lists of pairs. The bare integer and the bare pair that `np.pad` also
  accepts are not modelled.
- Split.Split: a `num_or_size_splits` of rank two or more is not modelled.
- Split.SplitPlaceholder: the round trip is stated for at most one -1. With several, every
  -1 receives the whole remainder, so the sizes overrun the axis and the code promises no
  round trip; `Split.ResolveSpec` still gives each resolved size.
- Reverse.Reverse: an `axis` of None is not modelled. Only a scalar axis or a list of axes is.
- The `name` arguments are ignored, as the code ignores them. So is split's `num`.
- The other entries of the name table are not part of this model. They hand their arguments
  to NumPy with no logic of their own: `concat`, `expand_dims`, `linspace`, `meshgrid`,
  `norm`, `reshape`, `roll`, `searchsorted`, `squeeze`, `stack`, `tile`, `transpose` and
  `where`.
- `tensorflow_probability/python/distributions/lognormal_test.py` is not part of this model.
  Its checks are floating-point formulas and random sampling of the log-normal distribution,
  which is not part of this model either.

## Findings

| source | as written | input that shows it | evidently intended | confidence | as-written member | corrected member |
|---|---|---|---|---|---|---|
| tensorflow_probability/python/internal/backend/numpy/numpy_array.py:86 | with the default `axis=None`, `np.take` gathers from the flattened `params` | `params = [[1, 2], [3, 4]]`, `indices = [1]` gives `[2]` | `tf.gather` gathers along axis 0 by default and gives `[[3, 4]]` | not executed | Gather.GatherDefaultAxisFlattens | Gather.GatherDefaultAxis |
