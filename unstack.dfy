/** `unstack`: split into sections of extent one along an axis, then squeeze that axis
    out of every section. */
module Unstack {
  import opened Tensors
  import opened Slicing
  import opened Split

  /** `shape` without axis `k`. */
  function Remove(shape: seq<nat>, k: nat): (r: seq<nat>)
    requires k < |shape|
    ensures |r| == |shape| - 1
  {
    shape[..k] + shape[k + 1..]
  }

  /** `idx` with position `i` inserted at axis `k`. */
  function Insert(idx: seq<nat>, k: nat, i: nat): (r: seq<nat>)
    requires k <= |idx|
    ensures |r| == |idx| + 1
  {
    idx[..k] + [i] + idx[k..]
  }

  /** `np.squeeze(t, axis=k)` of an axis of extent one: its single position is dropped. */
  function Squeeze(t: Tensor, k: nat): Tensor
    decreases t
  {
    match t
    case Scalar(_) => t
    case Array(inner, items) =>
      if k == 0 then (if items == [] then t else items[0])
      else if k - 1 < |inner| then
        Array(Remove(inner, k - 1), seq(|items|, i requires 0 <= i < |items| => Squeeze(items[i], k - 1)))
      else t
  }

  /** `unstack(value, num, axis)`: `np.split` into `num` sections (the axis's extent when
      `num` is absent) and a squeeze of `axis` in each. Reading the extent of an axis
      outside [-rank, rank) is an IndexError. The count reaches `np.split` as a plain
      integer, so a zero count is Python's ZeroDivisionError (`N % 0`); the split's other
      errors pass through; a section whose extent along the axis is not one cannot be
      squeezed, a ValueError. */
  function Unstack(t: Tensor, num: Option<int>, axis: int): Result<seq<Tensor>>
    requires Valid(t)
  {
    match NormalizeAxis(axis, |Shape(t)|)
    case None => Err(IndexError)
    case Some(k) =>
      var dim := Shape(t)[k];
      var n := if num.None? then dim as int else num.value;
      if n == 0 then Err(ZeroDivisionError)
      else match SplitSpec(t, Sections(n), axis)
      case Err(e) => Err(e)
      case Ok(sections) =>
        if dim / n != 1 then Err(ValueError)
        else Ok(seq(|sections|, i requires 0 <= i < |sections| => Squeeze(sections[i], k)))
  }

  lemma {:induction false} SqueezeShape(t: Tensor, k: nat)
    requires Valid(t) && k < |Shape(t)| && Shape(t)[k] == 1
    ensures Valid(Squeeze(t, k)) && Shape(Squeeze(t, k)) == Remove(Shape(t), k)
    decreases t
  {
    match t
    case Scalar(_) =>
    case Array(inner, items) =>
      RemoveCons(|items|, inner, k);
      if k == 0 {
        assert items[0] == Squeeze(t, 0);
      } else {
        var r := Squeeze(t, k);
        var s := Remove(inner, k - 1);
        assert r == Array(s, seq(|items|, i requires 0 <= i < |items| => Squeeze(items[i], k - 1)));
        forall i | 0 <= i < |items|
          ensures Valid(r.items[i]) && Shape(r.items[i]) == s
        {
          assert Shape(items[i]) == inner && inner[k - 1] == 1;
          SqueezeShape(items[i], k - 1);
        }
      }
  }

  lemma RemoveCons(n: nat, inner: seq<nat>, k: nat)
    requires k <= |inner|
    ensures Remove([n] + inner, k) == if k == 0 then inner else [n] + Remove(inner, k - 1)
  {
  }

  lemma InsertCons(idx: seq<nat>, k: nat, i: nat)
    requires 0 < k <= |idx|
    ensures Insert(idx, k, i) == [idx[0]] + Insert(idx[1..], k - 1, i)
  {
    assert idx[1..][..k - 1] == idx[1..k];
    assert idx[1..][k - 1..] == idx[k..];
  }

  /** The element of the squeezed array at `idx` is the element at `idx` with position 0
      put back on axis `k`. */
  lemma {:induction false} SqueezeAt(t: Tensor, k: nat, idx: seq<nat>)
    requires Valid(t) && k < |Shape(t)| && Shape(t)[k] == 1
    requires InBounds(Remove(Shape(t), k), idx)
    ensures InBounds(Shape(t), Insert(idx, k, 0))
    ensures At(Squeeze(t, k), idx) == At(t, Insert(idx, k, 0))
    decreases t
  {
    match t
    case Scalar(_) =>
    case Array(inner, items) =>
      if k == 0 {
        assert Insert(idx, 0, 0) == [0] + idx;
        AtCons(t, 0, idx);
        InBoundsCons(Shape(t), 0, idx);
      } else {
        var j, rest := idx[0], idx[1..];
        InBoundsTail(Remove(Shape(t), k), idx);
        RemoveCons(|items|, inner, k);
        SqueezeAt(items[j], k - 1, rest);
        var back := Insert(rest, k - 1, 0);
        InsertCons(idx, k, 0);
        var r := Squeeze(t, k);
        assert r.items[j] == Squeeze(items[j], k - 1);
        AtCons(r, j, rest);
        assert idx == [j] + rest;
        AtCons(t, j, back);
        InBoundsCons(Shape(t), j, back);
      }
  }

  /** `unstack` succeeds exactly when the axis exists, its extent is positive and `num`
      (if given) equals it; otherwise a bad axis is an IndexError, a zero count a
      ZeroDivisionError and any other count a ValueError. */
  lemma UnstackErrors(t: Tensor, num: Option<int>, axis: int)
    requires Valid(t)
    ensures NormalizeAxis(axis, |Shape(t)|).None? ==> Unstack(t, num, axis) == Err(IndexError)
    ensures NormalizeAxis(axis, |Shape(t)|).Some? ==>
      var dim := Shape(t)[NormalizeAxis(axis, |Shape(t)|).value];
      var n := if num.None? then dim as int else num.value;
      var r := Unstack(t, num, axis);
      (r.Ok? <==> n == dim && n > 0) &&
      (n == 0 ==> r == Err(ZeroDivisionError)) &&
      (n != 0 && n != dim ==> r == Err(ValueError))
  {
    if NormalizeAxis(axis, |Shape(t)|).Some? {
      var k := NormalizeAxis(axis, |Shape(t)|).value;
      var dim := Shape(t)[k];
      var n := if num.None? then dim as int else num.value;
      var r := Unstack(t, num, axis);
      if n == 0 {
        assert r == Err(ZeroDivisionError);
      } else if n < 0 || dim % n != 0 {
        assert SplitSpec(t, Sections(n), axis) == Err(ValueError);
        assert r == Err(ValueError);
        assert n != dim;
      } else {
        assert SplitSpec(t, Sections(n), axis).Ok?;
        SingleSection(dim, n);
      }
    }
  }

  /** Sections of extent one are exactly as many as the extent. */
  lemma SingleSection(dim: nat, n: int)
    requires n > 0 && dim % n == 0
    ensures dim / n == 1 <==> n == dim
  {
    ExactDivision(dim, n);
    if n == dim {
      assert n * 1 == dim;
    }
  }

  /** Every size of `EqualSizes(n, n)` is one, so section `i` starts at `i`. */
  lemma UnitSizes(n: nat, i: nat)
    requires n > 0 && i <= n
    ensures n % n == 0 && n / n == 1
    ensures forall m :: 0 <= m < n ==> EqualSizes(n, n)[m] == 1
    ensures Sum(EqualSizes(n, n)[..i]) == i
  {
    assert EqualSizes(n, n)[..i] == seq(i, _ => 1);
    SumConstant(i, 1);
  }

  /** Result `i` of a successful `unstack` is section `i` of the split into unit sizes,
      squeezed. */
  lemma UnstackSection(t: Tensor, num: Option<int>, axis: int, i: nat)
    requires Valid(t) && Unstack(t, num, axis).Ok?
    ensures NormalizeAxis(axis, |Shape(t)|).Some?
    ensures var k := NormalizeAxis(axis, |Shape(t)|).value;
      var dim := Shape(t)[k];
      var r := Unstack(t, num, axis).value;
      var s := SplitSpec(t, Sizes(EqualSizes(dim, dim)), axis);
      dim > 0 && |r| == dim && s.Ok? && |s.value| == dim &&
      (i < dim ==> r[i] == Squeeze(s.value[i], k))
  {
    UnstackErrors(t, num, axis);
    var k := NormalizeAxis(axis, |Shape(t)|).value;
    var dim := Shape(t)[k];
    UnitSizes(dim, 0);
    SectionsAreSizes(t, dim, axis);
  }

  /** Section `i` of the split into unit sizes has extent one along the axis, and its
      element at `idx` (with 0 on the axis) is the input's element with `i` there. */
  lemma UnitSection(t: Tensor, axis: int, i: nat, idx: seq<nat>)
    requires Valid(t) && NormalizeAxis(axis, |Shape(t)|).Some?
    requires i < Shape(t)[NormalizeAxis(axis, |Shape(t)|).value]
    ensures var k := NormalizeAxis(axis, |Shape(t)|).value;
      var dim := Shape(t)[k];
      var s := SplitSpec(t, Sizes(EqualSizes(dim, dim)), axis);
      s.Ok? && i < |s.value| && Valid(s.value[i]) && Shape(s.value[i]) == Shape(t)[k := 1] &&
      (InBounds(Remove(Shape(t), k), idx) ==>
        InBounds(Shape(t), Insert(idx, k, i)) && At(s.value[i], Insert(idx, k, 0)) == At(t, Insert(idx, k, i)))
  {
    var k := NormalizeAxis(axis, |Shape(t)|).value;
    var dim := Shape(t)[k];
    var sizes := EqualSizes(dim, dim);
    UnitSizes(dim, i);
    UnitSizes(dim, dim);
    assert sizes[..dim] == sizes;
    SplitSizes(t, sizes, axis, i, []);
    if InBounds(Remove(Shape(t), k), idx) {
      var back := Insert(idx, k, 0);
      var piece := SplitSpec(t, Sizes(sizes), axis).value[i];
      InsertInBounds(Shape(t), k, idx, i);
      InsertMoved(idx, k, i);
      SplitSizes(t, sizes, axis, i, back);
      assert Sum(sizes[..i]) == i;
      assert At(piece, back) == At(t, Moved(back, k, i));
      assert At(piece, back) == At(t, Insert(idx, k, i));
    }
  }

  lemma InsertInBounds(shape: seq<nat>, k: nat, idx: seq<nat>, i: nat)
    requires k < |shape| && i < shape[k] && InBounds(Remove(shape, k), idx)
    ensures InBounds(shape[k := 1], Insert(idx, k, 0))
    ensures InBounds(shape, Insert(idx, k, i))
  {
    forall m | 0 <= m < |shape| ensures Insert(idx, k, i)[m] < shape[m] && Insert(idx, k, 0)[m] < shape[k := 1][m] {
      if m < k {
        assert Remove(shape, k)[m] == shape[m];
      } else if m > k {
        assert Remove(shape, k)[m - 1] == shape[m];
      }
    }
  }

  lemma InsertMoved(idx: seq<nat>, k: nat, i: nat)
    requires k <= |idx|
    ensures Insert(idx, k, 0)[k] == 0
    ensures Moved(Insert(idx, k, 0), k, i) == Insert(idx, k, i)
  {
    var a, b := Moved(Insert(idx, k, 0), k, i), Insert(idx, k, i);
    assert |a| == |b|;
    forall m | 0 <= m < |a| ensures a[m] == b[m] {
      if m < k {
        assert a[m] == idx[m] == b[m];
      } else if m > k {
        assert a[m] == idx[m - 1] == b[m];
      }
    }
  }

  /** Result `i` of a successful `unstack` drops the axis from the shape, and its element
      at `idx` is the element of the input at `idx` with `i` inserted on the axis. */
  lemma UnstackAt(t: Tensor, num: Option<int>, axis: int, i: nat, idx: seq<nat>)
    requires Valid(t) && Unstack(t, num, axis).Ok?
    ensures NormalizeAxis(axis, |Shape(t)|).Some?
    ensures var k := NormalizeAxis(axis, |Shape(t)|).value;
      var r := Unstack(t, num, axis).value;
      |r| == Shape(t)[k] &&
      (i < |r| ==>
        Valid(r[i]) && Shape(r[i]) == Remove(Shape(t), k) &&
        (InBounds(Shape(r[i]), idx) ==>
          InBounds(Shape(t), Insert(idx, k, i)) && At(r[i], idx) == At(t, Insert(idx, k, i))))
  {
    UnstackSection(t, num, axis, i);
    var k := NormalizeAxis(axis, |Shape(t)|).value;
    var dim := Shape(t)[k];
    var r := Unstack(t, num, axis).value;
    if i < dim {
      var s := SplitSpec(t, Sizes(EqualSizes(dim, dim)), axis).value[i];
      UnitSection(t, axis, i, idx);
      SqueezeShape(s, k);
      assert Remove(Shape(s), k) == Remove(Shape(t), k);
      if InBounds(Shape(r[i]), idx) {
        SqueezeAt(s, k, idx);
      }
    }
  }

  /** Along the first axis, `unstack` gives the items themselves. */
  lemma UnstackFirst(t: Tensor)
    requires Valid(t) && t.Array? && |t.items| > 0
    ensures Unstack(t, None, 0) == Ok(t.items)
  {
    var dim := |t.items|;
    var sizes := EqualSizes(dim, dim);
    var r := Unstack(t, None, 0).value;
    UnstackSection(t, None, 0, 0);
    forall i | 0 <= i < dim ensures r[i] == t.items[i] {
      UnstackSection(t, None, 0, i);
      UnitSizes(dim, i);
      UnitSizes(dim, i + 1);
      UnitSizes(dim, dim);
      assert sizes[..dim] == sizes;
      SizesPiece(t, sizes, 0, i);
      FirstAxisPiece(t, i, i + 1);
      assert SplitSpec(t, Sizes(sizes), 0).value[i] == Array(t.inner, t.items[i..i + 1]);
    }
    assert r == t.items;
  }
}
