/** `pad` in its default `CONSTANT` mode: `np.pad(t, paddings, mode='constant',
    constant_values=c)`. */
module Pad {
  import opened Tensors
  import Slicing

  /** Per-axis `(before, after)` widths, already checked non-negative. */
  type Widths = seq<(nat, nat)>

  function PaddedShape(shape: seq<nat>, pads: Widths): (r: seq<nat>)
    ensures |r| == |shape|
  {
    if shape == [] || pads == [] then shape
    else [pads[0].0 + shape[0] + pads[0].1] + PaddedShape(shape[1..], pads[1..])
  }

  /** `idx` falls in the copy of the original array, not in the padding. */
  predicate Inside(shape: seq<nat>, pads: Widths, idx: seq<nat>) {
    if shape == [] || pads == [] || idx == [] then true
    else pads[0].0 <= idx[0] < pads[0].0 + shape[0] && Inside(shape[1..], pads[1..], idx[1..])
  }

  /** The index in the original array that `idx` of the padded array copies. */
  function Unpad(pads: Widths, idx: seq<nat>): (r: seq<nat>)
    ensures |r| == |idx|
  {
    if pads == [] || idx == [] then idx
    else [if idx[0] >= pads[0].0 then idx[0] - pads[0].0 else 0] + Unpad(pads[1..], idx[1..])
  }

  /** Constant padding of every axis: `before` slabs of `c`, the padded items, `after`
      slabs of `c`. */
  function PadTensor(t: Tensor, pads: Widths, c: int): Tensor
    decreases t
  {
    match t
    case Scalar(_) => t
    case Array(inner, items) =>
      if pads == [] then t
      else
        var rest := pads[1..];
        var slab := Constant(PaddedShape(inner, rest), c);
        Array(PaddedShape(inner, rest),
              seq(pads[0].0, _ => slab)
              + seq(|items|, i requires 0 <= i < |items| => PadTensor(items[i], rest, c))
              + seq(pads[0].1, _ => slab))
  }

  /** Item `j` of a padded array: a padded item of `t` inside the copy, a slab of `c`
      outside it. */
  lemma PadItem(inner: seq<nat>, items: seq<Tensor>, pads: Widths, c: int, j: nat)
    requires pads != []
    ensures var r := PadTensor(Array(inner, items), pads, c);
      r.Array? && |r.items| == pads[0].0 + |items| + pads[0].1 &&
      r.inner == PaddedShape(inner, pads[1..]) &&
      (j < |r.items| ==>
        r.items[j] == if pads[0].0 <= j < pads[0].0 + |items|
          then PadTensor(items[j - pads[0].0], pads[1..], c)
          else Constant(PaddedShape(inner, pads[1..]), c))
  {
  }

  lemma {:induction false} PadShape(t: Tensor, pads: Widths, c: int)
    requires Valid(t) && |pads| == |Shape(t)|
    ensures Valid(PadTensor(t, pads, c))
    ensures Shape(PadTensor(t, pads, c)) == PaddedShape(Shape(t), pads)
    decreases t
  {
    match t
    case Scalar(_) =>
    case Array(inner, items) =>
      var r := PadTensor(t, pads, c);
      var b, rest := pads[0].0, pads[1..];
      PadItem(inner, items, pads, c, 0);
      forall j | 0 <= j < |r.items|
        ensures Valid(r.items[j]) && Shape(r.items[j]) == PaddedShape(inner, rest)
      {
        PadItem(inner, items, pads, c, j);
        if b <= j < b + |items| {
          PadShape(items[j - b], rest, c);
        } else {
          ConstantValid(PaddedShape(inner, rest), c);
        }
      }
      assert PaddedShape(Shape(t), pads) == [|r.items|] + PaddedShape(inner, rest);
  }

  /** Inside the copy, the padded array holds the original's element; everywhere else it
      holds `c`. */
  lemma {:induction false} PadAt(t: Tensor, pads: Widths, c: int, idx: seq<nat>)
    requires Valid(t) && |pads| == |Shape(t)|
    requires InBounds(PaddedShape(Shape(t), pads), idx)
    ensures Inside(Shape(t), pads, idx) ==> InBounds(Shape(t), Unpad(pads, idx))
    ensures At(PadTensor(t, pads, c), idx) ==
      if Inside(Shape(t), pads, idx) then At(t, Unpad(pads, idx)) else c
    decreases t
  {
    match t
    case Scalar(_) =>
    case Array(inner, items) =>
      var r := PadTensor(t, pads, c);
      var b, j, tail, rest := pads[0].0, idx[0], idx[1..], pads[1..];
      var ps := PaddedShape(inner, rest);
      assert j < |r.items| && InBounds(ps, tail) by {
        InBoundsTail(PaddedShape(Shape(t), pads), idx);
        assert PaddedShape(Shape(t), pads) == [|r.items|] + ps by {
          PadItem(inner, items, pads, c, j);
        }
      }
      AtHead(r, idx);
      PadItem(inner, items, pads, c, j);
      if b <= j < b + |items| {
        var u := Unpad(rest, tail);
        assert Inside(Shape(t), pads, idx) == Inside(inner, rest, tail);
        assert Unpad(pads, idx) == [j - b] + u;
        PadAt(items[j - b], rest, c, tail);
        if Inside(Shape(t), pads, idx) {
          InBoundsCons(Shape(t), j - b, u);
          AtCons(t, j - b, u);
        }
      } else {
        assert !Inside(Shape(t), pads, idx);
        ConstantAt(ps, c, tail);
      }
  }

  /** `_pad` with mode `CONSTANT`. NumPy reads the paddings as pairs: a single pair is used
      for every axis, otherwise there must be one pair per axis; an empty list or a negative
      width is a ValueError. */
  function Pad(t: Tensor, paddings: seq<(int, int)>, c: int): Result<Tensor> {
    var rank := |Shape(t)|;
    if paddings == [] then Err(ValueError)
    else if exists k :: 0 <= k < |paddings| && (paddings[k].0 < 0 || paddings[k].1 < 0) then Err(ValueError)
    else if |paddings| == 1 then
      Ok(PadTensor(t, seq(rank, _ => (paddings[0].0 as nat, paddings[0].1 as nat)), c))
    else if |paddings| == rank then
      Ok(PadTensor(t, seq(rank, k requires 0 <= k < rank => (paddings[k].0 as nat, paddings[k].1 as nat)), c))
    else Err(ValueError)
  }

  predicate Accepted(rank: nat, paddings: seq<(int, int)>) {
    (|paddings| == 1 || (|paddings| == rank && rank > 0)) &&
    forall k :: 0 <= k < |paddings| ==> paddings[k].0 >= 0 && paddings[k].1 >= 0
  }

  /** The widths `Pad` applies once it accepts the paddings. */
  function Widen(rank: nat, paddings: seq<(int, int)>): (pads: Widths)
    requires Accepted(rank, paddings)
    ensures |pads| == rank
  {
    if |paddings| == 1 then seq(rank, _ => (paddings[0].0 as nat, paddings[0].1 as nat))
    else seq(rank, k requires 0 <= k < rank => (paddings[k].0 as nat, paddings[k].1 as nat))
  }

  /** `pad` succeeds exactly for accepted paddings; the result is rectangular, each axis
      grows by its two widths, and each element is the original's inside the copy and `c`
      outside it. */
  lemma PadSpec(t: Tensor, paddings: seq<(int, int)>, c: int, idx: seq<nat>)
    requires Valid(t)
    ensures Pad(t, paddings, c).Ok? <==> Accepted(|Shape(t)|, paddings)
    ensures Pad(t, paddings, c).Err? ==> Pad(t, paddings, c).error == ValueError
    ensures Accepted(|Shape(t)|, paddings) ==>
      var pads := Widen(|Shape(t)|, paddings);
      var r := Pad(t, paddings, c).value;
      Valid(r) && Shape(r) == PaddedShape(Shape(t), pads) &&
      (InBounds(Shape(r), idx) ==>
        At(r, idx) == if Inside(Shape(t), pads, idx) then At(t, Unpad(pads, idx)) else c)
  {
    if Accepted(|Shape(t)|, paddings) {
      var pads := Widen(|Shape(t)|, paddings);
      assert Pad(t, paddings, c) == Ok(PadTensor(t, pads, c));
      PadShape(t, pads, c);
      if InBounds(PaddedShape(Shape(t), pads), idx) {
        PadAt(t, pads, c, idx);
      }
    }
  }

  /** The one-dimensional case: `before` copies of `c`, the sequence, `after` copies of `c`. */
  lemma PadVector(xs: seq<int>, before: nat, after: nat, c: int)
    ensures Pad(Vector(xs), [(before, after)], c) ==
      Ok(Vector(seq(before, _ => c) + xs + seq(after, _ => c)))
  {
    var ys := seq(before, _ => c) + xs + seq(after, _ => c);
    var pads := Widen(1, [(before, after)]);
    assert pads == [(before, after)] by {
      assert |pads| == 1 && pads[0] == (before, after);
    }
    PadSpec(Vector(xs), [(before, after)], c, []);
    var r := Pad(Vector(xs), [(before, after)], c).value;
    forall idx | InBounds(Shape(r), idx) ensures At(r, idx) == At(Vector(ys), idx) {
      PadSpec(Vector(xs), [(before, after)], c, idx);
      var j := idx[0];
      assert idx == [j];
      VectorAt(ys, j);
      if before <= j < before + |xs| {
        assert Unpad(pads, idx) == [j - before];
        VectorAt(xs, j - before);
      }
    }
    Extensionality(r, Vector(ys));
  }

  /** Slicing the padding off again gives back the array: `slice(pad(t, p, c), befores,
      shape(t)) == t`. */
  lemma PadThenSlice(t: Tensor, pads: Widths, c: int)
    requires Valid(t) && |pads| == |Shape(t)|
    ensures Slicing.Slice(PadTensor(t, pads, c), seq(|pads|, k requires 0 <= k < |pads| => pads[k].0), Shape(t)) == Ok(t)
  {
    var begin := seq(|pads|, k requires 0 <= k < |pads| => pads[k].0 as int);
    var size := seq(|pads|, k requires 0 <= k < |pads| => Shape(t)[k] as int);
    assert size == Shape(t);
    var p := PadTensor(t, pads, c);
    PadShape(t, pads, c);
    PaddedShapeAt(Shape(t), pads);
    assert Slicing.WithinBounds(Shape(p), begin, size);
    var s := Slicing.Slice(p, begin, size).value;
    Slicing.SliceWithinBounds(p, begin, size, []);
    assert Shape(s) == Shape(t);
    forall idx | InBounds(Shape(s), idx) ensures At(s, idx) == At(t, idx) {
      Slicing.SliceWithinBounds(p, begin, size, idx);
      var moved := Slicing.Offset(idx, begin);
      PadAt(t, pads, c, moved);
      InsideShifted(Shape(t), pads, idx);
    }
    Extensionality(s, t);
  }

  lemma {:induction false} PaddedShapeAt(shape: seq<nat>, pads: Widths)
    requires |pads| == |shape|
    ensures forall k :: 0 <= k < |shape| ==> PaddedShape(shape, pads)[k] == pads[k].0 + shape[k] + pads[k].1
  {
    if shape != [] {
      PaddedShapeAt(shape[1..], pads[1..]);
      forall k | 0 <= k < |shape| ensures PaddedShape(shape, pads)[k] == pads[k].0 + shape[k] + pads[k].1 {
        if k > 0 {
          assert PaddedShape(shape, pads)[k] == PaddedShape(shape[1..], pads[1..])[k - 1];
        }
      }
    }
  }

  /** An index of the original, moved by the `before` widths, lands inside the copy and
      maps back to itself. */
  lemma {:induction false} InsideShifted(shape: seq<nat>, pads: Widths, idx: seq<nat>)
    requires |pads| == |shape| && InBounds(shape, idx)
    ensures var moved := Slicing.Offset(idx, seq(|pads|, k requires 0 <= k < |pads| => pads[k].0 as int));
      Inside(shape, pads, moved) && Unpad(pads, moved) == idx
  {
    var befores := seq(|pads|, k requires 0 <= k < |pads| => pads[k].0 as int);
    var moved := Slicing.Offset(idx, befores);
    if shape != [] {
      InBoundsTail(shape, idx);
      InsideShifted(shape[1..], pads[1..], idx[1..]);
      assert befores[1..] == seq(|pads| - 1, k requires 0 <= k < |pads| - 1 => pads[1..][k].0 as int);
      assert moved[1..] == Slicing.Offset(idx[1..], befores[1..]);
    }
  }
}
