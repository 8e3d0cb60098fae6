/** `slice`: per-axis `(begin, size)` pairs turned into Python slices `begin:begin+size`,
    or `begin:` when `size == -1`, and applied to the leading axes. */
module Slicing {
  import opened Tensors

  /** A Python slice `start:stop` with step 1; `stop == None` is `start:`. */
  datatype Bound = Bound(start: int, stop: Option<int>)

  /** A slice index adjusted to a sequence of length `n`: a negative index counts from the
      end, and the result is clamped to [0, n]. */
  function Clamp(i: int, n: nat): (r: nat)
    ensures r <= n
    ensures 0 <= i <= n ==> r == i
  {
    if i < 0 then (if i + n < 0 then 0 else i + n) else if i > n then n else i
  }

  /** Python's slice-index adjustment outside [0, n]: a negative index counts from the end,
      and lands on 0 when it reaches before the start; an index past the end is `n`. */
  lemma ClampOutside(i: int, n: nat)
    ensures i < 0 && i + n >= 0 ==> Clamp(i, n) == i + n
    ensures i + n < 0 ==> Clamp(i, n) == 0
    ensures i > n ==> Clamp(i, n) == n
  {
  }

  /** The positions [lo, hi) that `s[start:stop]` selects from a sequence of length `n`. */
  function Positions(n: nat, b: Bound): (p: (nat, nat))
    ensures p.0 <= p.1 <= n
    ensures p.0 == Clamp(b.start, n)
    ensures b.stop.None? ==> p.1 == n
    ensures b.stop.Some? && p.0 <= b.stop.value <= n ==> p.1 == b.stop.value
    ensures b.stop.Some? && Clamp(b.stop.value, n) <= p.0 ==> p.1 == p.0
  {
    var lo := Clamp(b.start, n);
    var hi := match b.stop case None => n case Some(e) => Clamp(e, n);
    (lo, if hi < lo then lo else hi)
  }

  /** The shape that slicing the leading axes of `shape` with `bounds` leaves. */
  function SlicedShape(shape: seq<nat>, bounds: seq<Bound>): (r: seq<nat>)
    ensures |r| == |shape|
  {
    if bounds == [] || shape == [] then shape
    else
      var p := Positions(shape[0], bounds[0]);
      [p.1 - p.0] + SlicedShape(shape[1..], bounds[1..])
  }

  /** The first position each sliced axis keeps. */
  function Lows(shape: seq<nat>, bounds: seq<Bound>): (r: seq<nat>)
    ensures |r| == if |bounds| <= |shape| then |bounds| else |shape|
  {
    if bounds == [] || shape == [] then []
    else [Positions(shape[0], bounds[0]).0] + Lows(shape[1..], bounds[1..])
  }

  /** `idx` moved by `lows` on the leading axes. */
  function Offset(idx: seq<nat>, lows: seq<nat>): (r: seq<nat>)
    ensures |r| == |idx|
  {
    if idx == [] || lows == [] then idx
    else [idx[0] + lows[0]] + Offset(idx[1..], lows[1..])
  }

  /** `t[b0, b1, ...]` for a tuple of slices, one per leading axis. */
  function SliceTensor(t: Tensor, bounds: seq<Bound>): Tensor
    decreases t
  {
    if bounds == [] then t
    else
      match t
      case Scalar(_) => t
      case Array(inner, items) =>
        var p := Positions(|items|, bounds[0]);
        Array(SlicedShape(inner, bounds[1..]),
              seq(p.1 - p.0, i requires 0 <= i < p.1 - p.0 => SliceTensor(items[p.0 + i], bounds[1..])))
  }

  /** Slicing keeps an array rectangular, and each sliced axis shrinks to its range. */
  lemma {:induction false} SliceShape(t: Tensor, bounds: seq<Bound>)
    requires Valid(t) && |bounds| <= |Shape(t)|
    ensures Valid(SliceTensor(t, bounds))
    ensures Shape(SliceTensor(t, bounds)) == SlicedShape(Shape(t), bounds)
    decreases t
  {
    if bounds != [] {
      match t
      case Array(inner, items) =>
        var p := Positions(|items|, bounds[0]);
        var r := SliceTensor(t, bounds);
        SliceItem(inner, items, bounds, 0);
        forall i | 0 <= i < |r.items|
          ensures Valid(r.items[i]) && Shape(r.items[i]) == SlicedShape(inner, bounds[1..])
        {
          SliceItem(inner, items, bounds, i);
          assert Valid(items[p.0 + i]) && Shape(items[p.0 + i]) == inner;
          SliceShape(items[p.0 + i], bounds[1..]);
        }
        SlicedShapeCons(|items|, inner, bounds);
    }
  }

  /** Item `i` of a slice is the slice of item `i` plus the first kept position. */
  lemma SliceItem(inner: seq<nat>, items: seq<Tensor>, bounds: seq<Bound>, i: nat)
    requires bounds != []
    ensures var r := SliceTensor(Array(inner, items), bounds);
      var p := Positions(|items|, bounds[0]);
      r.Array? && |r.items| == p.1 - p.0 && r.inner == SlicedShape(inner, bounds[1..]) &&
      (i < |r.items| ==> r.items[i] == SliceTensor(items[p.0 + i], bounds[1..]))
  {
  }

  /** The element at `idx` of the slice is the element at `idx` moved by each axis's
      first kept position. */
  lemma {:induction false} SliceAt(t: Tensor, bounds: seq<Bound>, idx: seq<nat>)
    requires Valid(t) && |bounds| <= |Shape(t)|
    requires InBounds(SlicedShape(Shape(t), bounds), idx)
    ensures InBounds(Shape(t), Offset(idx, Lows(Shape(t), bounds)))
    ensures At(SliceTensor(t, bounds), idx) == At(t, Offset(idx, Lows(Shape(t), bounds)))
    decreases t
  {
    if bounds == [] {
      assert Offset(idx, Lows(Shape(t), bounds)) == idx;
    } else {
      SliceStep(t, bounds, idx);
      SliceAt(t.items[Positions(|t.items|, bounds[0]).0 + idx[0]], bounds[1..], idx[1..]);
      SliceJoin(t, bounds, idx);
    }
  }

  /** The step of `SliceAt`: what holds for the item `idx[0]` moves to holds for `t`. */
  lemma SliceJoin(t: Tensor, bounds: seq<Bound>, idx: seq<nat>)
    requires t.Array? && bounds != [] && idx != [] && |idx| == |Shape(t)|
    requires var i := Positions(|t.items|, bounds[0]).0 + idx[0];
      var rest := Offset(idx[1..], Lows(t.inner, bounds[1..]));
      i < |t.items| && InBounds(t.inner, rest) &&
      At(SliceTensor(t, bounds), idx) == At(t.items[i], rest)
    ensures InBounds(Shape(t), Offset(idx, Lows(Shape(t), bounds)))
    ensures At(SliceTensor(t, bounds), idx) == At(t, Offset(idx, Lows(Shape(t), bounds)))
  {
    OffsetStep(t, bounds, idx);
    ShapeCons(t);
    InBoundsHead(Shape(t), Offset(idx, Lows(Shape(t), bounds)));
  }

  /** One level of the offset: `idx` moved by the lows of `t` starts at the item the first
      slice picks and continues with the moved rest of `idx`. */
  lemma OffsetStep(t: Tensor, bounds: seq<Bound>, idx: seq<nat>)
    requires t.Array? && bounds != [] && idx != [] && |idx| == |Shape(t)|
    requires Positions(|t.items|, bounds[0]).0 + idx[0] < |t.items|
    ensures var o := Offset(idx, Lows(Shape(t), bounds));
      var i := Positions(|t.items|, bounds[0]).0 + idx[0];
      var rest := Offset(idx[1..], Lows(t.inner, bounds[1..]));
      o[0] == i && o[1..] == rest && At(t, o) == At(t.items[i], rest)
  {
    var lows := Lows(Shape(t), bounds);
    var o := Offset(idx, lows);
    ShapeCons(t);
    LowsHead(Shape(t), bounds);
    OffsetHead(idx, lows);
    AtSplit(t, o, Positions(|t.items|, bounds[0]).0 + idx[0], Offset(idx[1..], Lows(t.inner, bounds[1..])));
  }

  lemma LowsHead(shape: seq<nat>, bounds: seq<Bound>)
    requires shape != [] && bounds != []
    ensures Lows(shape, bounds) != [] && Lows(shape, bounds)[0] == Positions(shape[0], bounds[0]).0
    ensures Lows(shape, bounds)[1..] == Lows(shape[1..], bounds[1..])
  {
    var rest := Lows(shape[1..], bounds[1..]);
    assert ([Positions(shape[0], bounds[0]).0] + rest)[1..] == rest;
  }

  lemma OffsetHead(idx: seq<nat>, lows: seq<nat>)
    requires idx != [] && lows != []
    ensures Offset(idx, lows)[0] == idx[0] + lows[0]
    ensures Offset(idx, lows)[1..] == Offset(idx[1..], lows[1..])
  {
    var rest := Offset(idx[1..], lows[1..]);
    assert ([idx[0] + lows[0]] + rest)[1..] == rest;
  }

  /** One level of `SliceAt`: the slice's element at `idx` is in the slice of the item
      `idx[0]` moves to. */
  lemma SliceStep(t: Tensor, bounds: seq<Bound>, idx: seq<nat>)
    requires Valid(t) && t.Array? && bounds != [] && |bounds| <= |Shape(t)|
    requires InBounds(SlicedShape(Shape(t), bounds), idx)
    ensures var p := Positions(|t.items|, bounds[0]);
      p.0 + idx[0] < |t.items| && InBounds(SlicedShape(t.inner, bounds[1..]), idx[1..]) &&
      Valid(t.items[p.0 + idx[0]]) && Shape(t.items[p.0 + idx[0]]) == t.inner &&
      At(SliceTensor(t, bounds), idx) == At(SliceTensor(t.items[p.0 + idx[0]], bounds[1..]), idx[1..])
  {
    var p := Positions(|t.items|, bounds[0]);
    var r := SliceTensor(t, bounds);
    var sliced := SlicedShape(Shape(t), bounds);
    ShapeCons(t);
    SlicedShapeAt(Shape(t), bounds, 0);
    assert idx[0] < sliced[0] == p.1 - p.0;
    InBoundsTail(sliced, idx);
    SlicedShapeTail(Shape(t), bounds);
    SliceItem(t.inner, t.items, bounds, idx[0]);
    AtHead(r, idx);
  }

  lemma SlicedShapeCons(n: nat, inner: seq<nat>, bounds: seq<Bound>)
    requires bounds != []
    ensures var p := Positions(n, bounds[0]);
      SlicedShape([n] + inner, bounds) == [p.1 - p.0] + SlicedShape(inner, bounds[1..])
  {
    assert ([n] + inner)[0] == n && ([n] + inner)[1..] == inner;
  }

  lemma SlicedShapeTail(shape: seq<nat>, bounds: seq<Bound>)
    requires shape != [] && bounds != []
    ensures SlicedShape(shape, bounds)[1..] == SlicedShape(shape[1..], bounds[1..])
  {
    var p := Positions(shape[0], bounds[0]);
    assert ([p.1 - p.0] + SlicedShape(shape[1..], bounds[1..]))[1..] == SlicedShape(shape[1..], bounds[1..]);
  }

  /** The per-axis slices `_slice` builds: `begin:begin+size`, or `begin:` for size -1;
      `zip` stops at the shorter of the two lists. */
  function Bounds(begin: seq<int>, size: seq<int>): (r: seq<Bound>)
    ensures |r| == if |begin| <= |size| then |begin| else |size|
  {
    var n := if |begin| <= |size| then |begin| else |size|;
    seq(n, k requires 0 <= k < n =>
      Bound(begin[k], if size[k] != -1 then Some(begin[k] + size[k]) else None))
  }

  /** `_slice`: more slices than axes is NumPy's IndexError. */
  function Slice(t: Tensor, begin: seq<int>, size: seq<int>): (r: Result<Tensor>)
    ensures r.Ok? <==> |begin| <= |Shape(t)| || |size| <= |Shape(t)|
    ensures r.Err? ==> r.error == IndexError
  {
    var bounds := Bounds(begin, size);
    if |bounds| > |Shape(t)| then Err(IndexError) else Ok(SliceTensor(t, bounds))
  }

  /** Begin and size pairs that stay inside the array. */
  predicate WithinBounds(shape: seq<nat>, begin: seq<int>, size: seq<int>) {
    |begin| == |size| <= |shape| &&
    forall k :: 0 <= k < |begin| ==>
      0 <= begin[k] <= shape[k] && (size[k] == -1 || 0 <= size[k] <= shape[k] - begin[k])
  }

  /** The extent a `(begin, size)` pair keeps along an axis of extent `n`. */
  function Kept(n: nat, begin: int, size: int): int {
    if size == -1 then n - begin else size
  }

  /** Extent `k` of a sliced shape: the axis's kept range if a slice reaches it, the whole
      axis otherwise. */
  lemma {:induction false} SlicedShapeAt(shape: seq<nat>, bounds: seq<Bound>, k: nat)
    requires k < |shape|
    ensures SlicedShape(shape, bounds)[k] ==
      if k < |bounds| then Positions(shape[k], bounds[k]).1 - Positions(shape[k], bounds[k]).0 else shape[k]
  {
    if bounds != [] && k > 0 {
      SlicedShapeAt(shape[1..], bounds[1..], k - 1);
    }
  }

  lemma {:induction false} LowsAt(shape: seq<nat>, bounds: seq<Bound>, k: nat)
    requires |bounds| <= |shape| && k < |bounds|
    ensures Lows(shape, bounds)[k] == Positions(shape[k], bounds[k]).0
  {
    if k > 0 {
      LowsAt(shape[1..], bounds[1..], k - 1);
    }
  }

  /** The pair `(begin[k], size[k])` starts at `begin[k]` and keeps `Kept(...)` entries. */
  lemma BoundAt(shape: seq<nat>, begin: seq<int>, size: seq<int>, k: nat)
    requires WithinBounds(shape, begin, size) && k < |begin|
    ensures var p := Positions(shape[k], Bounds(begin, size)[k]);
      p.0 == begin[k] && p.1 - p.0 == Kept(shape[k], begin[k], size[k])
  {
    assert 0 <= begin[k] <= shape[k] && (size[k] == -1 || 0 <= size[k] <= shape[k] - begin[k]);
  }

  lemma WithinBoundsLows(shape: seq<nat>, begin: seq<int>, size: seq<int>)
    requires WithinBounds(shape, begin, size)
    ensures Lows(shape, Bounds(begin, size)) == begin
  {
    var lows := Lows(shape, Bounds(begin, size));
    forall k | 0 <= k < |begin| ensures lows[k] == begin[k] {
      LowsAt(shape, Bounds(begin, size), k);
      BoundAt(shape, begin, size, k);
    }
  }

  lemma WithinBoundsShape(shape: seq<nat>, begin: seq<int>, size: seq<int>)
    requires WithinBounds(shape, begin, size)
    ensures forall k :: 0 <= k < |begin| ==> SlicedShape(shape, Bounds(begin, size))[k] == Kept(shape[k], begin[k], size[k])
    ensures forall k :: |begin| <= k < |shape| ==> SlicedShape(shape, Bounds(begin, size))[k] == shape[k]
  {
    forall k | 0 <= k < |shape|
      ensures SlicedShape(shape, Bounds(begin, size))[k] == if k < |begin| then Kept(shape[k], begin[k], size[k]) else shape[k]
    {
      SlicedShapeAt(shape, Bounds(begin, size), k);
      if k < |begin| {
        BoundAt(shape, begin, size, k);
      }
    }
  }

  /** Within bounds, `slice` keeps `size` entries (or the rest of the axis for -1) from
      `begin` on along each given axis, leaves the other axes whole, and its element at
      `idx` is the input's element at `idx + begin`. */
  lemma SliceWithinBounds(t: Tensor, begin: seq<int>, size: seq<int>, idx: seq<nat>)
    requires Valid(t) && WithinBounds(Shape(t), begin, size)
    ensures Slice(t, begin, size).Ok?
    ensures Valid(Slice(t, begin, size).value)
    ensures var s := Shape(Slice(t, begin, size).value);
      |s| == |Shape(t)| &&
      (forall k :: 0 <= k < |begin| ==> s[k] == Kept(Shape(t)[k], begin[k], size[k])) &&
      (forall k :: |begin| <= k < |s| ==> s[k] == Shape(t)[k])
    ensures InBounds(Shape(Slice(t, begin, size).value), idx) ==>
      InBounds(Shape(t), Offset(idx, begin)) &&
      At(Slice(t, begin, size).value, idx) == At(t, Offset(idx, begin))
  {
    var bounds := Bounds(begin, size);
    SliceShape(t, bounds);
    WithinBoundsShape(Shape(t), begin, size);
    WithinBoundsLows(Shape(t), begin, size);
    if InBounds(Shape(Slice(t, begin, size).value), idx) {
      SliceAt(t, bounds, idx);
    }
  }

  /** The one-dimensional case: `slice(xs, [b], [s])` is `xs[b..b+s]`, or `xs[b..]` for -1. */
  lemma SliceVector(xs: seq<int>, b: nat, s: int)
    requires b <= |xs| && (s == -1 || 0 <= s <= |xs| - b)
    ensures Slice(Vector(xs), [b], [s]) == Ok(Vector(if s == -1 then xs[b..] else xs[b..b + s]))
  {
    var bound := Bound(b, if s != -1 then Some(b + s) else None);
    assert Bounds([b], [s]) == [bound];
    var p := Positions(|xs|, bound);
    assert p == (b, if s == -1 then |xs| else b + s);
    var v := Vector(xs);
    var r := SliceTensor(v, [bound]);
    assert [bound][1..] == [] && [bound][0] == bound && |v.items| == |xs|;
    var expected := Vector(if s == -1 then xs[b..] else xs[b..b + s]);
    assert r.inner == [] == expected.inner;
    assert |r.items| == p.1 - p.0 == |expected.items|;
    forall i | 0 <= i < |r.items| ensures r.items[i] == expected.items[i] {
      calc {
        r.items[i];
        SliceTensor(v.items[b + i], []);
        Scalar(xs[b + i]);
      }
    }
    assert r.items == expected.items;
  }
}
