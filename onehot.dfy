/** `one_hot`: a trailing axis of length `depth` that holds `on_value` at the position
    each index names and `off_value` everywhere else. */
module OneHot {
  import opened Tensors

  /** The row for one index: `on` at position `x` and `off` at every other position. */
  function Row(x: int, depth: nat, on: int, off: int): seq<int> {
    seq(depth, j requires 0 <= j < depth => if j == x then on else off)
  }

  /** Every index of `ind` replaced by its row. */
  function Encode(ind: Tensor, depth: nat, on: int, off: int): Tensor
    decreases ind
  {
    match ind
    case Scalar(x) => Vector(Row(x, depth, on, off))
    case Array(inner, items) =>
      Array(inner + [depth], seq(|items|, i requires 0 <= i < |items| => Encode(items[i], depth, on, off)))
  }

  /** `_one_hot` with its default axis: `on_value` and `off_value` default to 1 and 0, and
      a negative depth makes the tiling fail with a ValueError. */
  function OneHot(indices: Tensor, depth: int, onValue: Option<int>, offValue: Option<int>): (r: Result<Tensor>)
    ensures r.Ok? <==> depth >= 0
    ensures r.Err? ==> r.error == ValueError
  {
    if depth < 0 then Err(ValueError)
    else
      var on := match onValue case None => 1 case Some(v) => v;
      var off := match offValue case None => 0 case Some(v) => v;
      Ok(Encode(indices, depth, on, off))
  }

  lemma {:induction false} EncodeShape(ind: Tensor, depth: nat, on: int, off: int)
    requires Valid(ind)
    ensures Valid(Encode(ind, depth, on, off))
    ensures Shape(Encode(ind, depth, on, off)) == Shape(ind) + [depth]
    decreases ind
  {
    match ind
    case Scalar(_) =>
    case Array(inner, items) =>
      forall i | 0 <= i < |items|
        ensures Valid(Encode(items[i], depth, on, off)) && Shape(Encode(items[i], depth, on, off)) == inner + [depth]
      {
        EncodeShape(items[i], depth, on, off);
      }
  }

  lemma {:induction false} EncodeAt(ind: Tensor, depth: nat, on: int, off: int, idx: seq<nat>, j: nat)
    requires Valid(ind) && InBounds(Shape(ind), idx) && j < depth
    ensures At(Encode(ind, depth, on, off), idx + [j]) == if At(ind, idx) == j then on else off
    decreases ind
  {
    match ind
    case Scalar(x) =>
      assert idx + [j] == [j];
      VectorAt(Row(x, depth, on, off), j);
    case Array(inner, items) =>
      InBoundsTail(Shape(ind), idx);
      EncodeAt(items[idx[0]], depth, on, off, idx[1..], j);
      assert (idx + [j])[1..] == idx[1..] + [j];
  }

  /** `one_hot` adds a trailing axis of length `depth`, and the element at `idx + [j]` is
      `on_value` (default 1) exactly when `indices[idx] == j` and `off_value` (default 0)
      otherwise. */
  lemma OneHotSpec(indices: Tensor, depth: int, onValue: Option<int>, offValue: Option<int>, idx: seq<nat>, j: nat)
    requires Valid(indices) && depth >= 0
    ensures var r := OneHot(indices, depth, onValue, offValue).value;
      Valid(r) && Shape(r) == Shape(indices) + [depth as nat] &&
      (InBounds(Shape(indices), idx) && j < depth ==>
        At(r, idx + [j]) ==
          if At(indices, idx) == j then (if onValue.None? then 1 else onValue.value)
          else (if offValue.None? then 0 else offValue.value))
  {
    var on := if onValue.None? then 1 else onValue.value;
    var off := if offValue.None? then 0 else offValue.value;
    assert OneHot(indices, depth, onValue, offValue) == Ok(Encode(indices, depth, on, off));
    EncodeShape(indices, depth, on, off);
    if InBounds(Shape(indices), idx) && j < depth {
      EncodeAt(indices, depth, on, off, idx, j);
    }
  }

  /** An index outside [0, depth) selects nothing: its whole row is `off_value`. */
  lemma OneHotOutOfRange(indices: Tensor, depth: nat, on: int, off: int, idx: seq<nat>)
    requires Valid(indices) && InBounds(Shape(indices), idx)
    requires At(indices, idx) < 0 || At(indices, idx) >= depth
    ensures forall j :: 0 <= j < depth ==>
      At(OneHot(indices, depth, Some(on), Some(off)).value, idx + [j]) == off
  {
    forall j | 0 <= j < depth
      ensures At(OneHot(indices, depth, Some(on), Some(off)).value, idx + [j]) == off
    {
      EncodeAt(indices, depth, on, off, idx, j);
    }
  }

  /** An index inside [0, depth) has exactly one `on_value` in its row, at the index. */
  lemma OneHotInRange(indices: Tensor, depth: nat, on: int, off: int, idx: seq<nat>)
    requires Valid(indices) && InBounds(Shape(indices), idx)
    requires 0 <= At(indices, idx) < depth
    ensures At(OneHot(indices, depth, Some(on), Some(off)).value, idx + [At(indices, idx) as nat]) == on
    ensures forall j :: 0 <= j < depth && j != At(indices, idx) ==>
      At(OneHot(indices, depth, Some(on), Some(off)).value, idx + [j]) == off
  {
    EncodeAt(indices, depth, on, off, idx, At(indices, idx) as nat);
    forall j | 0 <= j < depth && j != At(indices, idx)
      ensures At(OneHot(indices, depth, Some(on), Some(off)).value, idx + [j]) == off
    {
      EncodeAt(indices, depth, on, off, idx, j);
    }
  }
}
