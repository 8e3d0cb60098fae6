/** N-dimensional integer arrays as the NumPy backend of the tensor shim sees them,
    and the errors its operations raise. */
module Tensors {

  datatype Option<+T> = None | Some(value: T)

  /** The exceptions the shim raises itself (NotImplemented) or lets NumPy raise. */
  datatype Error =
    | NotImplemented(message: string)
    | AxisError          // numpy.AxisError: an axis outside [-rank, rank)
    | IndexError         // IndexError: an index, or an axis used as a tuple index, out of range
    | ValueError         // ValueError raised by NumPy on negative sizes or unequal divisions
    | ZeroDivisionError  // a division or remainder by zero

  datatype Result<+T> = Ok(value: T) | Err(error: Error)

  /** A dense array. `Array(inner, items)` holds `|items|` sub-arrays along its first axis,
      each of shape `inner`. Keeping `inner` explicit gives an array with a zero-length
      axis its whole shape, as NumPy does for shape (0, 3). */
  datatype Tensor = Scalar(value: int) | Array(inner: seq<nat>, items: seq<Tensor>)

  /** `np.array(t).shape`. */
  function Shape(t: Tensor): seq<nat> {
    match t
    case Scalar(_) => []
    case Array(inner, items) => [|items|] + inner
  }

  /** Every NumPy array is rectangular: all items along an axis share one shape. */
  ghost predicate Valid(t: Tensor)
    decreases t
  {
    match t
    case Scalar(_) => true
    case Array(inner, items) =>
      forall i :: 0 <= i < |items| ==> Shape(items[i]) == inner && Valid(items[i])
  }

  /** `idx` addresses one element of an array of shape `shape`. */
  predicate InBounds(shape: seq<nat>, idx: seq<nat>) {
    |idx| == |shape| && forall k :: 0 <= k < |idx| ==> idx[k] < shape[k]
  }

  lemma InBoundsTail(shape: seq<nat>, idx: seq<nat>)
    requires InBounds(shape, idx) && |shape| > 0
    ensures InBounds(shape[1..], idx[1..])
  {
    forall k | 0 <= k < |idx| - 1 ensures idx[1..][k] < shape[1..][k] {
      assert idx[1..][k] == idx[k + 1];
    }
  }

  lemma InBoundsCons(shape: seq<nat>, i: nat, idx: seq<nat>)
    requires |shape| > 0 && i < shape[0] && InBounds(shape[1..], idx)
    ensures InBounds(shape, [i] + idx)
  {
    forall k | 0 <= k < |idx| + 1 ensures ([i] + idx)[k] < shape[k] {
      if k > 0 { assert ([i] + idx)[k] == idx[k - 1]; }
    }
  }

  lemma InBoundsHead(shape: seq<nat>, idx: seq<nat>)
    requires shape != [] && |idx| == |shape| && idx[0] < shape[0] && InBounds(shape[1..], idx[1..])
    ensures InBounds(shape, idx)
  {
    forall k | 0 <= k < |idx| ensures idx[k] < shape[k] {
      if k > 0 { assert idx[1..][k - 1] < shape[1..][k - 1]; }
    }
  }

  /** The element at multi-index `idx`, `t[idx[0], idx[1], ...]`, when `idx` is in bounds
      (`InBounds(Shape(t), idx)`); every statement about it below assumes so. */
  function At(t: Tensor, idx: seq<nat>): int
    decreases t
  {
    match t
    case Scalar(v) => v
    case Array(_, items) =>
      if idx != [] && idx[0] < |items| then At(items[idx[0]], idx[1..]) else 0
  }

  lemma AtHead(t: Tensor, idx: seq<nat>)
    requires t.Array? && idx != [] && idx[0] < |t.items|
    ensures At(t, idx) == At(t.items[idx[0]], idx[1..])
  {
  }

  /** `AtHead` with the head and the rest of the index named. */
  lemma AtSplit(t: Tensor, idx: seq<nat>, i: nat, rest: seq<nat>)
    requires t.Array? && idx != [] && idx[0] == i < |t.items| && idx[1..] == rest
    ensures At(t, idx) == At(t.items[i], rest)
  {
  }

  lemma ConsTail<T>(x: T, s: seq<T>)
    ensures ([x] + s)[0] == x && ([x] + s)[1..] == s
  {
    assert ([x] + s)[1..] == s;
  }

  lemma ShapeCons(t: Tensor)
    requires t.Array?
    ensures Shape(t) != [] && Shape(t)[0] == |t.items| && Shape(t)[1..] == t.inner
  {
    assert ([|t.items|] + t.inner)[1..] == t.inner;
  }

  lemma AtCons(t: Tensor, i: nat, idx: seq<nat>)
    requires t.Array? && i < |t.items|
    ensures At(t, [i] + idx) == At(t.items[i], idx)
  {
    assert ([i] + idx)[1..] == idx;
  }

  /** Two valid arrays of one shape that agree at every index are equal. */
  lemma {:induction false} Extensionality(a: Tensor, b: Tensor)
    requires Valid(a) && Valid(b) && Shape(a) == Shape(b)
    requires forall idx :: InBounds(Shape(a), idx) ==> At(a, idx) == At(b, idx)
    ensures a == b
    decreases a
  {
    match a
    case Scalar(_) =>
      assert InBounds(Shape(a), []);
    case Array(inner, items) =>
      assert b.Array? && Shape(b)[0] == |b.items| && Shape(b)[1..] == b.inner;
      assert Shape(a)[0] == |items| && Shape(a)[1..] == inner;
      forall i | 0 <= i < |items| ensures items[i] == b.items[i] {
        forall idx | InBounds(inner, idx) ensures At(items[i], idx) == At(b.items[i], idx) {
          InBoundsCons(Shape(a), i, idx);
          AtCons(a, i, idx);
          AtCons(b, i, idx);
        }
        Extensionality(items[i], b.items[i]);
      }
  }

  /** Number of elements of an array of shape `shape` (`np.prod`, 1 for the empty shape). */
  function Product(shape: seq<nat>): nat {
    if shape == [] then 1 else shape[0] * Product(shape[1..])
  }

  function Concat(ss: seq<seq<int>>): seq<int> {
    if ss == [] then [] else ss[0] + Concat(ss[1..])
  }

  /** The elements in row-major (C) order, as `np.ravel` gives them. */
  function Flatten(t: Tensor): seq<int>
    decreases t
  {
    match t
    case Scalar(v) => [v]
    case Array(_, items) => Concat(seq(|items|, i requires 0 <= i < |items| => Flatten(items[i])))
  }

  lemma {:induction false} ConcatUniform(ss: seq<seq<int>>, m: nat)
    requires forall i :: 0 <= i < |ss| ==> |ss[i]| == m
    ensures |Concat(ss)| == |ss| * m
  {
    if ss != [] {
      ConcatUniform(ss[1..], m);
    }
  }

  /** A valid array has exactly as many elements as its shape's product. */
  lemma {:induction false} FlattenLength(t: Tensor)
    requires Valid(t)
    ensures |Flatten(t)| == Product(Shape(t))
    decreases t
  {
    match t
    case Scalar(_) =>
    case Array(inner, items) =>
      var ss := seq(|items|, i requires 0 <= i < |items| => Flatten(items[i]));
      forall i | 0 <= i < |items| ensures |ss[i]| == Product(inner) {
        FlattenLength(items[i]);
      }
      ConcatUniform(ss, Product(inner));
      assert Shape(t)[1..] == inner;
  }

  /** A one-dimensional array. */
  function Vector(xs: seq<int>): (r: Tensor)
    ensures Shape(r) == [|xs|]
  {
    Array([], seq(|xs|, i requires 0 <= i < |xs| => Scalar(xs[i])))
  }

  lemma VectorAt(xs: seq<int>, i: nat)
    requires i < |xs|
    ensures InBounds(Shape(Vector(xs)), [i]) && At(Vector(xs), [i]) == xs[i]
  {
    assert [i][1..] == [];
  }

  lemma {:induction false} VectorFlatten(xs: seq<int>)
    ensures Flatten(Vector(xs)) == xs
  {
    if xs != [] {
      VectorFlatten(xs[1..]);
      var ss := seq(|xs|, i requires 0 <= i < |xs| => Flatten(Vector(xs).items[i]));
      assert ss[1..] == seq(|xs| - 1, i requires 0 <= i < |xs| - 1 => Flatten(Vector(xs[1..]).items[i]));
    }
  }

  /** An array of shape `shape` whose every element is `v`. */
  function Constant(shape: seq<nat>, v: int): (r: Tensor)
    ensures Shape(r) == shape
    decreases |shape|
  {
    if shape == [] then Scalar(v)
    else Array(shape[1..], seq(shape[0], _ => Constant(shape[1..], v)))
  }

  lemma {:induction false} ConstantValid(shape: seq<nat>, v: int)
    ensures Valid(Constant(shape, v))
    decreases |shape|
  {
    if shape != [] {
      ConstantValid(shape[1..], v);
    }
  }

  lemma {:induction false} ConstantAt(shape: seq<nat>, v: int, idx: seq<nat>)
    requires InBounds(shape, idx)
    ensures At(Constant(shape, v), idx) == v
    decreases |shape|
  {
    if shape != [] {
      InBoundsTail(shape, idx);
      ConstantAt(shape[1..], v, idx[1..]);
    }
  }

  /** An axis argument in [-rank, rank) counts from the end when negative; anything else is
      out of range. */
  function NormalizeAxis(axis: int, rank: nat): (r: Option<nat>)
    ensures r.Some? <==> -(rank as int) <= axis < rank
    ensures r.Some? ==> r.value < rank && (r.value == axis || r.value == axis + rank)
  {
    if -(rank as int) <= axis < rank then Some(if axis < 0 then axis + rank else axis) else None
  }
}
