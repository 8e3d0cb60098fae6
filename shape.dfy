/** `shape`, `size` and `rank`, and the constant builders `fill`, `ones`, `zeros`,
    `ones_like` and `zeros_like`. */
module ArrayShape {
  import opened Tensors

  /** `_shape`: the extent of the array along each axis; the extents multiply out to the
      number of elements, only a scalar has the empty shape, and an array's shape is its
      number of items followed by the shape every item has. */
  function ShapeOf(t: Tensor): (r: seq<nat>)
    requires Valid(t)
    ensures Product(r) == |Flatten(t)|
    ensures r == [] <==> t.Scalar?
    ensures t.Array? ==> r[0] == |t.items| && r[1..] == t.inner
    ensures t.Array? ==> forall i :: 0 <= i < |t.items| ==> ShapeOf(t.items[i]) == r[1..]
  {
    FlattenLength(t);
    Shape(t)
  }

  /** `_size`: the product of the shape's entries, which is the number of elements. */
  function Size(t: Tensor): (r: nat)
    requires Valid(t)
    ensures r == |Flatten(t)|
  {
    FlattenLength(t);
    Product(Shape(t))
  }

  /** `rank`: the number of axes, that is the length of the shape; one more than the rank
      of every item. */
  function Rank(t: Tensor): (r: nat)
    requires Valid(t)
    ensures r == |ShapeOf(t)|
    ensures r == 0 <==> t.Scalar?
    ensures t.Array? ==> forall i :: 0 <= i < |t.items| ==> Rank(t.items[i]) + 1 == r
  {
    |Shape(t)|
  }

  predicate NonNegative(dims: seq<int>) {
    forall k :: 0 <= k < |dims| ==> dims[k] >= 0
  }

  lemma ConstantEverywhere(shape: seq<nat>, v: int)
    ensures forall idx :: InBounds(shape, idx) ==> At(Constant(shape, v), idx) == v
  {
    forall idx | InBounds(shape, idx) ensures At(Constant(shape, v), idx) == v {
      ConstantAt(shape, v, idx);
    }
  }

  /** `fill(dims, value)`: an array of shape `dims` holding `value` everywhere; NumPy
      refuses a negative dimension. */
  function Fill(dims: seq<int>, value: int): (r: Result<Tensor>)
    ensures r.Ok? <==> NonNegative(dims)
    ensures r.Err? ==> r.error == ValueError
    ensures r.Ok? ==> Valid(r.value) && Shape(r.value) == dims
    ensures r.Ok? ==> forall idx :: InBounds(Shape(r.value), idx) ==> At(r.value, idx) == value
  {
    if NonNegative(dims) then
      var shape := seq(|dims|, k requires 0 <= k < |dims| => dims[k] as nat);
      ConstantEverywhere(shape, value);
      ConstantValid(shape, value);
      Ok(Constant(shape, value))
    else
      Err(ValueError)
  }

  /** `ones(shape)`: an array of shape `shape` of ones. */
  function Ones(shape: seq<int>): (r: Result<Tensor>)
    ensures r.Ok? <==> NonNegative(shape)
    ensures r.Ok? ==> Valid(r.value) && Shape(r.value) == shape
    ensures r.Ok? ==> forall idx :: InBounds(Shape(r.value), idx) ==> At(r.value, idx) == 1
  {
    Fill(shape, 1)
  }

  /** `zeros(shape)`: an array of shape `shape` of zeros. */
  function Zeros(shape: seq<int>): (r: Result<Tensor>)
    ensures r.Ok? <==> NonNegative(shape)
    ensures r.Ok? ==> Valid(r.value) && Shape(r.value) == shape
    ensures r.Ok? ==> forall idx :: InBounds(Shape(r.value), idx) ==> At(r.value, idx) == 0
  {
    Fill(shape, 0)
  }

  /** `_ones_like`: ones in the shape of `t`. */
  function OnesLike(t: Tensor): (r: Tensor)
    requires Valid(t)
    ensures Valid(r) && Shape(r) == Shape(t)
    ensures forall idx :: InBounds(Shape(t), idx) ==> At(r, idx) == 1
  {
    Ones(ShapeOf(t)).value
  }

  /** `_zeros_like`: zeros in the shape of `t`. */
  function ZerosLike(t: Tensor): (r: Tensor)
    requires Valid(t)
    ensures Valid(r) && Shape(r) == Shape(t)
    ensures forall idx :: InBounds(Shape(t), idx) ==> At(r, idx) == 0
  {
    Zeros(ShapeOf(t)).value
  }
}
