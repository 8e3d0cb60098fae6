/** `reverse`: flip an array along one axis, or along each axis of a list in turn. */
module Reverse {
  import opened Tensors

  function Reversed<T>(s: seq<T>): (r: seq<T>)
    ensures |r| == |s| && forall i :: 0 <= i < |s| ==> r[i] == s[|s| - 1 - i]
  {
    seq(|s|, i requires 0 <= i < |s| => s[|s| - 1 - i])
  }

  /** `np.flip(t, k)` for an axis `k` already brought into [0, rank). */
  function Flip(t: Tensor, k: nat): (r: Tensor)
    ensures Shape(r) == Shape(t)
    decreases t
  {
    match t
    case Scalar(_) => t
    case Array(inner, items) =>
      if k == 0 then Array(inner, Reversed(items))
      else Array(inner, seq(|items|, i requires 0 <= i < |items| => Flip(items[i], k - 1)))
  }

  lemma {:induction false} FlipValid(t: Tensor, k: nat)
    requires Valid(t)
    ensures Valid(Flip(t, k))
    decreases t
  {
    match t
    case Scalar(_) =>
    case Array(inner, items) =>
      var r := Flip(t, k);
      if k == 0 {
        forall i | 0 <= i < |r.items| ensures Shape(r.items[i]) == inner && Valid(r.items[i]) {
          assert r.items[i] == items[|items| - 1 - i];
        }
      } else {
        forall i | 0 <= i < |r.items| ensures Shape(r.items[i]) == inner && Valid(r.items[i]) {
          FlipValid(items[i], k - 1);
        }
      }
  }

  /** The index that the element at `idx` comes from when axis `k` of extent `n` is flipped. */
  function Mirror(idx: seq<nat>, k: nat, n: nat): (m: seq<nat>)
    requires k < |idx| && idx[k] < n
    ensures |m| == |idx| && m[k] == n - 1 - idx[k]
  {
    idx[k := n - 1 - idx[k]]
  }

  lemma MirrorInBounds(shape: seq<nat>, idx: seq<nat>, k: nat)
    requires InBounds(shape, idx) && k < |shape|
    ensures InBounds(shape, Mirror(idx, k, shape[k]))
  {
    var m := Mirror(idx, k, shape[k]);
    forall j | 0 <= j < |m| ensures m[j] < shape[j] {
      if j != k {
        assert m[j] == idx[j];
      }
    }
  }

  lemma MirrorTail(idx: seq<nat>, k: nat, n: nat)
    requires 1 <= k < |idx| && idx[k] < n
    ensures Mirror(idx, k, n)[0] == idx[0]
    ensures Mirror(idx, k, n)[1..] == Mirror(idx[1..], k - 1, n)
  {
    var a, b := Mirror(idx, k, n)[1..], Mirror(idx[1..], k - 1, n);
    forall j | 0 <= j < |a| ensures a[j] == b[j] {
    }
  }

  /** Flipping axis `k` maps the element at index i along that axis to index n - 1 - i and
      leaves the other coordinates alone. */
  lemma {:induction false} FlipAt(t: Tensor, k: nat, idx: seq<nat>)
    requires Valid(t) && k < |Shape(t)| && InBounds(Shape(t), idx)
    ensures InBounds(Shape(t), Mirror(idx, k, Shape(t)[k]))
    ensures At(Flip(t, k), idx) == At(t, Mirror(idx, k, Shape(t)[k]))
    decreases t
  {
    MirrorInBounds(Shape(t), idx, k);
    var m := Mirror(idx, k, Shape(t)[k]);
    match t
    case Array(inner, items) =>
      InBoundsTail(Shape(t), idx);
      InBoundsTail(Shape(t), m);
      var x := items[idx[0]];
      if k == 0 {
        assert m[1..] == idx[1..];
        assert At(Flip(t, k), idx) == At(items[m[0]], idx[1..]);
        assert At(t, m) == At(items[m[0]], m[1..]);
      } else {
        FlipAt(x, k - 1, idx[1..]);
        MirrorTail(idx, k, Shape(t)[k]);
        assert inner[k - 1] == Shape(t)[k];
        assert At(Flip(t, k), idx) == At(Flip(x, k - 1), idx[1..]);
        assert m[0] == idx[0];
        assert At(t, m) == At(x, m[1..]);
      }
  }

  /** Flipping the same axis twice gives back the array. */
  lemma {:induction false} FlipInvolution(t: Tensor, k: nat)
    ensures Flip(Flip(t, k), k) == t
    decreases t
  {
    match t
    case Scalar(_) =>
    case Array(inner, items) =>
      if k == 0 {
        assert Reversed(Reversed(items)) == items;
      } else {
        forall i | 0 <= i < |items| ensures Flip(Flip(items[i], k - 1), k - 1) == items[i] {
          FlipInvolution(items[i], k - 1);
        }
        assert Flip(Flip(t, k), k).items == items;
      }
  }

  /** Item `i` of a flip: the mirrored item for axis 0, the item flipped one axis lower
      otherwise. */
  lemma FlipItem(t: Tensor, k: nat, i: nat)
    requires t.Array?
    ensures Flip(t, k).Array? && Flip(t, k).inner == t.inner && |Flip(t, k).items| == |t.items|
    ensures i < |t.items| ==>
      Flip(t, k).items[i] == if k == 0 then t.items[|t.items| - 1 - i] else Flip(t.items[i], k - 1)
  {
  }

  /** A flip of axis 0 commutes with a flip of any other axis. */
  lemma FirstFlipCommute(t: Tensor, c: nat)
    requires t.Array? && c > 0
    ensures Flip(Flip(t, 0), c) == Flip(Flip(t, c), 0)
  {
    var n := |t.items|;
    var l, r := Flip(Flip(t, 0), c), Flip(Flip(t, c), 0);
    FlipItem(t, 0, 0);
    FlipItem(t, c, 0);
    forall i | 0 <= i < n ensures l.items[i] == r.items[i] {
      FlipItem(t, 0, i);
      FlipItem(Flip(t, 0), c, i);
      FlipItem(t, c, n - 1 - i);
      FlipItem(Flip(t, c), 0, i);
    }
    assert l.items == r.items;
  }

  /** Flips along two axes commute. */
  lemma {:induction false} FlipCommute(t: Tensor, a: nat, b: nat)
    ensures Flip(Flip(t, a), b) == Flip(Flip(t, b), a)
    decreases t
  {
    match t
    case Scalar(_) =>
    case Array(inner, items) =>
      if a == b {
      } else if a == 0 {
        FirstFlipCommute(t, b);
      } else if b == 0 {
        FirstFlipCommute(t, a);
      } else {
        var l, r := Flip(Flip(t, a), b), Flip(Flip(t, b), a);
        FlipItem(t, a, 0);
        FlipItem(t, b, 0);
        forall i | 0 <= i < |items| ensures l.items[i] == r.items[i] {
          FlipItem(t, a, i);
          FlipItem(Flip(t, a), b, i);
          FlipItem(t, b, i);
          FlipItem(Flip(t, b), a, i);
          FlipCommute(items[i], a - 1, b - 1);
        }
        assert l.items == r.items;
      }
  }

  /** On a one-dimensional array, flipping axis 0 reverses the sequence. */
  lemma FlipVector(xs: seq<int>)
    ensures Flip(Vector(xs), 0) == Vector(Reversed(xs))
  {
  }

  /** The axis argument of `reverse`: a single axis, or a list of axes flipped in turn. */
  datatype AxisArg = Single(axis: int) | Each(axes: seq<int>)

  /** The flips of `ks` applied in order, first to last. */
  function FlipAll(t: Tensor, ks: seq<nat>): (r: Tensor)
    ensures Shape(r) == Shape(t)
  {
    if ks == [] then t else Flip(FlipAll(t, ks[..|ks| - 1]), ks[|ks| - 1])
  }

  lemma {:induction false} FlipAllValid(t: Tensor, ks: seq<nat>)
    requires Valid(t)
    ensures Valid(FlipAll(t, ks))
  {
    if ks != [] {
      FlipAllValid(t, ks[..|ks| - 1]);
      FlipValid(FlipAll(t, ks[..|ks| - 1]), ks[|ks| - 1]);
    }
  }

  predicate AllAxes(axes: seq<int>, rank: nat) {
    forall i :: 0 <= i < |axes| ==> NormalizeAxis(axes[i], rank).Some?
  }

  function Normalized(axes: seq<int>, rank: nat): (ks: seq<nat>)
    requires AllAxes(axes, rank)
    ensures |ks| == |axes|
  {
    seq(|axes|, i requires 0 <= i < |axes| => NormalizeAxis(axes[i], rank).value)
  }

  /** What `_reverse` returns: the array flipped along the axis, or along every axis of the
      list in turn; an axis outside [-rank, rank) raises numpy's AxisError. */
  function ReverseSpec(t: Tensor, axis: AxisArg): Result<Tensor> {
    var rank := |Shape(t)|;
    match axis
    case Single(a) =>
      (match NormalizeAxis(a, rank)
       case None => Err(AxisError)
       case Some(k) => Ok(Flip(t, k)))
    case Each(axes) =>
      if AllAxes(axes, rank) then Ok(FlipAll(t, Normalized(axes, rank))) else Err(AxisError)
  }

  /** `_reverse`: a scalar axis is flipped once; a list of axes is walked, rebinding the
      array to its flip along each axis. */
  method Reverse(t: Tensor, axis: AxisArg) returns (r: Result<Tensor>)
    ensures r == ReverseSpec(t, axis)
  {
    match axis {
      case Single(a) =>
        var k := NormalizeAxis(a, |Shape(t)|);
        if k.None? {
          return Err(AxisError);
        }
        return Ok(Flip(t, k.value));
      case Each(axes) =>
        var rank := |Shape(t)|;
        var tensor := t;
        ghost var ks: seq<nat> := [];
        var i := 0;
        while i < |axes|
          invariant 0 <= i <= |axes|
          invariant Shape(tensor) == Shape(t)
          invariant AllAxes(axes[..i], rank) && ks == Normalized(axes[..i], rank)
          invariant tensor == FlipAll(t, ks)
        {
          var k := NormalizeAxis(axes[i], |Shape(tensor)|);
          if k.None? {
            return Err(AxisError);
          }
          NormalizedSnoc(axes, i, rank);
          assert (ks + [k.value])[..|ks|] == ks;
          tensor := Flip(tensor, k.value);
          ks := ks + [k.value];
          i := i + 1;
        }
        assert axes[..i] == axes;
        return Ok(tensor);
    }
  }

  lemma NormalizedSnoc(axes: seq<int>, i: nat, rank: nat)
    requires i < |axes| && AllAxes(axes[..i], rank) && NormalizeAxis(axes[i], rank).Some?
    ensures AllAxes(axes[..i + 1], rank)
    ensures Normalized(axes[..i + 1], rank) == Normalized(axes[..i], rank) + [NormalizeAxis(axes[i], rank).value]
  {
    assert axes[..i + 1] == axes[..i] + [axes[i]];
  }

  /** One flip can be moved past a whole sequence of flips. */
  lemma {:induction false} FlipPastAll(t: Tensor, ks: seq<nat>, a: nat)
    ensures Flip(FlipAll(t, ks), a) == FlipAll(Flip(t, a), ks)
  {
    if ks != [] {
      var front, b := ks[..|ks| - 1], ks[|ks| - 1];
      calc {
        Flip(FlipAll(t, ks), a);
        Flip(Flip(FlipAll(t, front), b), a);
        { FlipCommute(FlipAll(t, front), b, a); }
        Flip(Flip(FlipAll(t, front), a), b);
        { FlipPastAll(t, front, a); }
        Flip(FlipAll(Flip(t, a), front), b);
      }
    }
  }

  /** Flipping along the same list of axes twice gives back the array. */
  lemma {:induction false} FlipAllTwice(t: Tensor, ks: seq<nat>)
    ensures FlipAll(FlipAll(t, ks), ks) == t
  {
    if ks != [] {
      var front, b := ks[..|ks| - 1], ks[|ks| - 1];
      var w := FlipAll(t, front);
      calc {
        FlipAll(FlipAll(t, ks), ks);
        Flip(FlipAll(Flip(w, b), front), b);
        { FlipPastAll(w, front, b); }
        Flip(Flip(FlipAll(w, front), b), b);
        { FlipInvolution(FlipAll(w, front), b); }
        FlipAll(FlipAll(t, front), front);
        { FlipAllTwice(t, front); }
        t;
      }
    }
  }

  /** `reverse` keeps the shape, and reversing the result along the same axes gives back
      the input. */
  lemma ReverseTwice(t: Tensor, axis: AxisArg)
    requires Valid(t)
    ensures ReverseSpec(t, axis).Ok? ==> Valid(ReverseSpec(t, axis).value)
    ensures ReverseSpec(t, axis).Ok? ==> Shape(ReverseSpec(t, axis).value) == Shape(t)
    ensures ReverseSpec(t, axis).Ok? ==> ReverseSpec(ReverseSpec(t, axis).value, axis) == Ok(t)
  {
    match axis
    case Single(a) =>
      if NormalizeAxis(a, |Shape(t)|).Some? {
        FlipValid(t, NormalizeAxis(a, |Shape(t)|).value);
        FlipInvolution(t, NormalizeAxis(a, |Shape(t)|).value);
      }
    case Each(axes) =>
      if AllAxes(axes, |Shape(t)|) {
        FlipAllValid(t, Normalized(axes, |Shape(t)|));
        FlipAllTwice(t, Normalized(axes, |Shape(t)|));
      }
  }

  /** Reversing along axis 0, or -1, of a one-dimensional array reverses its elements. */
  lemma ReverseVector(xs: seq<int>)
    ensures ReverseSpec(Vector(xs), Single(0)) == Ok(Vector(Reversed(xs)))
    ensures ReverseSpec(Vector(xs), Single(-1)) == Ok(Vector(Reversed(xs)))
    ensures ReverseSpec(Vector(xs), Single(1)) == Err(AxisError)
  {
    FlipVector(xs);
  }

  /** Element-wise meaning of a single-axis `reverse`. */
  lemma ReverseSingleAt(t: Tensor, a: int, idx: seq<nat>)
    requires Valid(t) && InBounds(Shape(t), idx)
    requires NormalizeAxis(a, |Shape(t)|).Some?
    ensures var k := NormalizeAxis(a, |Shape(t)|).value;
      ReverseSpec(t, Single(a)).Ok? &&
      InBounds(Shape(t), Mirror(idx, k, Shape(t)[k])) &&
      At(ReverseSpec(t, Single(a)).value, idx) == At(t, Mirror(idx, k, Shape(t)[k]))
  {
    FlipAt(t, NormalizeAxis(a, |Shape(t)|).value, idx);
  }
}
