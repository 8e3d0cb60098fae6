/** `gather` (through `np.take`) and `gather_nd`. */
module Gather {
  import opened Tensors

  /** Every entry of `ind` is a valid index for an axis of extent `n`: in [-n, n). */
  predicate IndicesIn(ind: Tensor, n: nat)
    decreases ind
  {
    match ind
    case Scalar(x) => -(n as int) <= x < n
    case Array(_, items) => forall i :: 0 <= i < |items| ==> IndicesIn(items[i], n)
  }

  /** A Python index in [-n, n) counts from the end when negative. */
  function Wrap(x: int, n: nat): (r: nat)
    requires -(n as int) <= x < n
    ensures r < n && (r == x || r == x + n)
  {
    if x < 0 then x + n else x
  }

  /** `np.take` along the first axis of an array with items `rows` (each of shape
      `rowShape`): every entry of `ind` is replaced by the row it selects. */
  function Pick(ind: Tensor, rows: seq<Tensor>, rowShape: seq<nat>): Tensor
    requires IndicesIn(ind, |rows|)
    decreases ind
  {
    match ind
    case Scalar(x) => rows[Wrap(x, |rows|)]
    case Array(inner, items) =>
      Array(inner + rowShape, seq(|items|, i requires 0 <= i < |items| => Pick(items[i], rows, rowShape)))
  }

  /** The shape of `np.take(p, ind, axis=k)`: axis `k` of `shape` replaced by the whole
      shape of the indices. */
  function TakenShape(shape: seq<nat>, indShape: seq<nat>, k: nat): seq<nat>
    requires k < |shape|
  {
    shape[..k] + indShape + shape[k + 1..]
  }

  /** `np.take(p, ind, axis=k)` for an axis `k` already brought into [0, rank). */
  function TakeAxis(p: Tensor, ind: Tensor, k: nat): Tensor
    requires Valid(p) && k < |Shape(p)| && IndicesIn(ind, Shape(p)[k])
    decreases p
  {
    match p
    case Array(inner, items) =>
      if k == 0 then Pick(ind, items, inner)
      else
        Array(TakenShape(inner, Shape(ind), k - 1),
              seq(|items|, i requires 0 <= i < |items| => TakeAxis(items[i], ind, k - 1)))
  }

  predicate RowsShaped(rows: seq<Tensor>, rowShape: seq<nat>) {
    forall i :: 0 <= i < |rows| ==> Shape(rows[i]) == rowShape
  }

  lemma {:induction false} PickShape(ind: Tensor, rows: seq<Tensor>, rowShape: seq<nat>)
    requires Valid(ind) && IndicesIn(ind, |rows|) && RowsShaped(rows, rowShape)
    requires forall i :: 0 <= i < |rows| ==> Valid(rows[i])
    ensures Valid(Pick(ind, rows, rowShape))
    ensures Shape(Pick(ind, rows, rowShape)) == Shape(ind) + rowShape
    decreases ind
  {
    match ind
    case Scalar(_) =>
    case Array(inner, items) =>
      forall i | 0 <= i < |items|
        ensures Valid(Pick(items[i], rows, rowShape)) && Shape(Pick(items[i], rows, rowShape)) == inner + rowShape
      {
        PickShape(items[i], rows, rowShape);
      }
      PickShapeStep(ind, rows, rowShape);
  }

  /** The step of `PickShape`: picks of the items that share a shape make a valid array. */
  lemma PickShapeStep(ind: Tensor, rows: seq<Tensor>, rowShape: seq<nat>)
    requires ind.Array? && IndicesIn(ind, |rows|)
    requires forall i :: 0 <= i < |ind.items| ==>
      Valid(Pick(ind.items[i], rows, rowShape)) && Shape(Pick(ind.items[i], rows, rowShape)) == ind.inner + rowShape
    ensures Valid(Pick(ind, rows, rowShape))
    ensures Shape(Pick(ind, rows, rowShape)) == Shape(ind) + rowShape
  {
    var r := Pick(ind, rows, rowShape);
    PickItem(ind, rows, rowShape, 0);
    forall i | 0 <= i < |r.items| ensures Valid(r.items[i]) && Shape(r.items[i]) == r.inner {
      PickItem(ind, rows, rowShape, i);
    }
    assert Shape(r) == [|ind.items|] + (ind.inner + rowShape);
  }

  /** Item `i` of a pick is the pick of item `i` of the indices. */
  lemma PickItem(ind: Tensor, rows: seq<Tensor>, rowShape: seq<nat>, i: nat)
    requires ind.Array? && IndicesIn(ind, |rows|)
    ensures var r := Pick(ind, rows, rowShape);
      r.Array? && r.inner == ind.inner + rowShape && |r.items| == |ind.items| &&
      (i < |ind.items| ==> IndicesIn(ind.items[i], |rows|) && r.items[i] == Pick(ind.items[i], rows, rowShape))
  {
  }

  /** `np.take` along an axis keeps the array rectangular: the axis is replaced by the
      indices' shape. */
  lemma {:induction false} TakeShape(p: Tensor, ind: Tensor, k: nat)
    requires Valid(p) && Valid(ind) && k < |Shape(p)| && IndicesIn(ind, Shape(p)[k])
    ensures Valid(TakeAxis(p, ind, k))
    ensures Shape(TakeAxis(p, ind, k)) == TakenShape(Shape(p), Shape(ind), k)
    decreases p
  {
    match p
    case Array(inner, items) =>
      if k == 0 {
        PickShape(ind, items, inner);
      } else {
        forall i | 0 <= i < |items|
          ensures Valid(TakeAxis(items[i], ind, k - 1))
          ensures Shape(TakeAxis(items[i], ind, k - 1)) == TakenShape(inner, Shape(ind), k - 1)
        {
          TakeShape(items[i], ind, k - 1);
        }
        TakenShapeCons(|items|, inner, Shape(ind), k);
      }
  }

  lemma TakenShapeCons(n: nat, inner: seq<nat>, indShape: seq<nat>, k: nat)
    requires 0 < k <= |inner|
    ensures TakenShape([n] + inner, indShape, k) == [n] + TakenShape(inner, indShape, k - 1)
  {
    assert ([n] + inner)[..k] == [n] + inner[..k - 1];
    assert ([n] + inner)[k + 1..] == inner[k..];
  }

  lemma {:induction false} IndexInRange(ind: Tensor, n: nat, j: seq<nat>)
    requires Valid(ind) && IndicesIn(ind, n) && InBounds(Shape(ind), j)
    ensures -(n as int) <= At(ind, j) < n
    decreases ind
  {
    match ind
    case Scalar(_) =>
    case Array(_, items) =>
      InBoundsTail(Shape(ind), j);
      IndexInRange(items[j[0]], n, j[1..]);
  }

  lemma {:induction false} PickAt(ind: Tensor, rows: seq<Tensor>, rowShape: seq<nat>, j: seq<nat>, rest: seq<nat>)
    requires Valid(ind) && IndicesIn(ind, |rows|) && InBounds(Shape(ind), j)
    ensures -(|rows| as int) <= At(ind, j) < |rows|
    ensures At(Pick(ind, rows, rowShape), j + rest) == At(rows[Wrap(At(ind, j), |rows|)], rest)
    decreases ind
  {
    IndexInRange(ind, |rows|, j);
    match ind
    case Scalar(_) =>
      assert j + rest == rest;
    case Array(inner, items) =>
      InBoundsTail(Shape(ind), j);
      PickAt(items[j[0]], rows, rowShape, j[1..], rest);
      assert (j + rest)[1..] == j[1..] + rest;
  }

  lemma ConsSplit(pre: seq<nat>, a: seq<nat>, b: seq<nat>)
    requires |pre| > 0
    ensures (pre + a + b)[0] == pre[0] && (pre + a + b)[1..] == pre[1..] + a + b
  {
    assert (pre + a + b)[1..] == pre[1..] + a + b;
  }

  lemma PrefixTail(s: seq<nat>, k: nat)
    requires 0 < k <= |s|
    ensures s[..k][1..] == s[1..][..k - 1]
  {
  }

  /** Past the first axis, item `i` of the take is the take from item `i`. */
  lemma TakeAxisItem(p: Tensor, ind: Tensor, k: nat, i: nat)
    requires Valid(p) && 0 < k < |Shape(p)| && IndicesIn(ind, Shape(p)[k]) && i < |p.items|
    ensures Valid(p.items[i]) && Shape(p.items[i]) == Shape(p)[1..]
    ensures TakeAxis(p, ind, k).Array? && |TakeAxis(p, ind, k).items| == |p.items|
    ensures TakeAxis(p, ind, k).items[i] == TakeAxis(p.items[i], ind, k - 1)
  {
  }

  /** The element of `np.take(p, ind, axis=k)` at `pre + j + post` (with `pre` indexing
      the axes before `k` and `j` the indices' own shape) is the element of `p` at
      `pre + [ind[j]] + post`. */
  lemma {:induction false} TakeAt(p: Tensor, ind: Tensor, k: nat, pre: seq<nat>, j: seq<nat>, post: seq<nat>)
    requires Valid(p) && Valid(ind) && k < |Shape(p)| && IndicesIn(ind, Shape(p)[k])
    requires InBounds(Shape(p)[..k], pre) && InBounds(Shape(ind), j)
    ensures -(Shape(p)[k] as int) <= At(ind, j) < Shape(p)[k]
    ensures At(TakeAxis(p, ind, k), pre + j + post) ==
      At(p, pre + [Wrap(At(ind, j), Shape(p)[k])] + post)
    decreases p
  {
    IndexInRange(ind, Shape(p)[k], j);
    var w := Wrap(At(ind, j), Shape(p)[k]);
    if k == 0 {
      TakeFirstAt(p, ind, pre, j, post);
    } else {
      TakeStep(p, ind, k, pre, j, post, w);
      TakeAt(p.items[pre[0]], ind, k - 1, pre[1..], j, post);
    }
  }

  /** One level of `TakeAt` past the first axis: both sides move into item `pre[0]`. */
  lemma TakeStep(p: Tensor, ind: Tensor, k: nat, pre: seq<nat>, j: seq<nat>, post: seq<nat>, v: nat)
    requires Valid(p) && 0 < k < |Shape(p)| && IndicesIn(ind, Shape(p)[k])
    requires InBounds(Shape(p)[..k], pre)
    ensures pre != [] && pre[0] < |p.items|
    ensures var x := p.items[pre[0]];
      Valid(x) && k - 1 < |Shape(x)| && Shape(x)[k - 1] == Shape(p)[k] &&
      InBounds(Shape(x)[..k - 1], pre[1..]) &&
      At(TakeAxis(p, ind, k), pre + j + post) == At(TakeAxis(x, ind, k - 1), pre[1..] + j + post) &&
      At(p, pre + [v] + post) == At(x, pre[1..] + [v] + post)
  {
    var i, rest := pre[0], pre[1..];
    ShapeCons(p);
    assert i < Shape(p)[..k][0];
    TakeAxisItem(p, ind, k, i);
    InBoundsTail(Shape(p)[..k], pre);
    PrefixTail(Shape(p), k);
    ConsSplit(pre, j, post);
    AtHead(TakeAxis(p, ind, k), pre + j + post);
    ConsSplit(pre, [v], post);
    AtHead(p, pre + [v] + post);
  }

  /** The first-axis case of `TakeAt`: the element at `j + post` is element `post` of
      the row `ind[j]` selects. */
  lemma TakeFirstAt(p: Tensor, ind: Tensor, pre: seq<nat>, j: seq<nat>, post: seq<nat>)
    requires Valid(p) && Valid(ind) && 0 < |Shape(p)| && IndicesIn(ind, Shape(p)[0])
    requires pre == [] && InBounds(Shape(ind), j)
    ensures -(Shape(p)[0] as int) <= At(ind, j) < Shape(p)[0]
    ensures At(TakeAxis(p, ind, 0), pre + j + post) == At(p, pre + [Wrap(At(ind, j), Shape(p)[0])] + post)
  {
    IndexInRange(ind, Shape(p)[0], j);
    var w := Wrap(At(ind, j), Shape(p)[0]);
    EmptyPrefix(pre, j, post);
    EmptyPrefix(pre, [w], post);
    ShapeCons(p);
    PickAt(ind, p.items, p.inner, j, post);
    AtCons(p, w, post);
  }

  lemma EmptyPrefix(pre: seq<nat>, a: seq<nat>, b: seq<nat>)
    requires pre == []
    ensures pre + a + b == a + b
  {
  }

  /** `np.take(p, ind, axis)`: with no axis the array is flattened first; an axis outside
      [-rank, rank) is an AxisError and an index outside [-n, n) an IndexError. */
  function Take(p: Tensor, ind: Tensor, axis: Option<int>): Result<Tensor>
    requires Valid(p)
  {
    match axis
    case None =>
      var flat := Vector(Flatten(p));
      if IndicesIn(ind, |flat.items|) then Ok(Pick(ind, flat.items, [])) else Err(IndexError)
    case Some(a) =>
      match NormalizeAxis(a, |Shape(p)|)
      case None => Err(AxisError)
      case Some(k) => if IndicesIn(ind, Shape(p)[k]) then Ok(TakeAxis(p, ind, k)) else Err(IndexError)
  }

  const ValidateIndicesMessage := "Argument `validate_indices != None` is currently unimplemented."
  const BatchDimsMessage := "Argument `batch_dims != 0` is currently unimplemented."

  /** `_gather` as written: `validate_indices` other than None and `batch_dims` other than 0
      are refused, in that order; everything else is `np.take(params, indices, axis=axis)`,
      so the default `axis=None` gathers from the flattened `params`. */
  function GatherAsWritten(params: Tensor, indices: Tensor, validateIndices: Option<bool>,
                           axis: Option<int>, batchDims: int): (r: Result<Tensor>)
    requires Valid(params)
    ensures validateIndices.Some? ==> r == Err(NotImplemented(ValidateIndicesMessage))
    ensures validateIndices.None? && batchDims != 0 ==> r == Err(NotImplemented(BatchDimsMessage))
    ensures r.Err? && r.error.NotImplemented? <==> validateIndices.Some? || batchDims != 0
  {
    if validateIndices.Some? then Err(NotImplemented(ValidateIndicesMessage))
    else if batchDims != 0 then Err(NotImplemented(BatchDimsMessage))
    else Take(params, indices, axis)
  }

  /** `gather` as the tensor API defines it: the same refusals, and an absent axis means
      axis 0 rather than the flattened array. */
  function Gather(params: Tensor, indices: Tensor, validateIndices: Option<bool>,
                  axis: Option<int>, batchDims: int): (r: Result<Tensor>)
    requires Valid(params)
    ensures validateIndices.Some? ==> r == Err(NotImplemented(ValidateIndicesMessage))
    ensures validateIndices.None? && batchDims != 0 ==> r == Err(NotImplemented(BatchDimsMessage))
    ensures r.Err? && r.error.NotImplemented? <==> validateIndices.Some? || batchDims != 0
  {
    if validateIndices.Some? then Err(NotImplemented(ValidateIndicesMessage))
    else if batchDims != 0 then Err(NotImplemented(BatchDimsMessage))
    else Take(params, indices, Some(match axis case None => 0 case Some(a) => a))
  }

  /** Given an explicit axis, the code as written and the corrected `gather` agree, so
      every property of `Gather` along an axis holds of the code as written too. */
  lemma GatherExplicitAxis(params: Tensor, indices: Tensor, validateIndices: Option<bool>,
                           a: int, batchDims: int)
    requires Valid(params)
    ensures GatherAsWritten(params, indices, validateIndices, Some(a), batchDims) ==
            Gather(params, indices, validateIndices, Some(a), batchDims)
  {
  }

  /** Past the refusals, `gather` along axis `a` fails only on a bad axis or index; it
      replaces axis `a` by the indices' shape, and each element is the element of
      `params` that the index selects. */
  lemma GatherAlongAxis(params: Tensor, indices: Tensor, a: int, pre: seq<nat>, j: seq<nat>, post: seq<nat>)
    requires Valid(params) && Valid(indices)
    ensures var r := Gather(params, indices, None, Some(a), 0);
      (NormalizeAxis(a, |Shape(params)|).None? ==> r == Err(AxisError)) &&
      (NormalizeAxis(a, |Shape(params)|).Some? ==>
        var k := NormalizeAxis(a, |Shape(params)|).value;
        (r.Ok? <==> IndicesIn(indices, Shape(params)[k])) &&
        (r.Err? ==> r.error == IndexError) &&
        (r.Ok? ==>
          Valid(r.value) && Shape(r.value) == TakenShape(Shape(params), Shape(indices), k) &&
          (InBounds(Shape(params)[..k], pre) && InBounds(Shape(indices), j) ==>
            -(Shape(params)[k] as int) <= At(indices, j) < Shape(params)[k] &&
            At(r.value, pre + j + post) ==
              At(params, pre + [Wrap(At(indices, j), Shape(params)[k])] + post))))
  {
    var n := NormalizeAxis(a, |Shape(params)|);
    if n.Some? && IndicesIn(indices, Shape(params)[n.value]) {
      TakeShape(params, indices, n.value);
      if InBounds(Shape(params)[..n.value], pre) && InBounds(Shape(indices), j) {
        TakeAt(params, indices, n.value, pre, j, post);
      }
    }
  }

  /** With the default axis, `gather` selects whole items along the first axis: it fails
      only on a scalar (no axis to gather along) or an index outside [-n, n), and the
      result has the indices' shape followed by an item's shape. */
  lemma GatherDefaultAxis(params: Tensor, indices: Tensor)
    requires Valid(params) && Valid(indices)
    ensures var r := Gather(params, indices, None, None, 0);
      (params.Scalar? ==> r == Err(AxisError)) &&
      (params.Array? ==>
        (r.Ok? <==> IndicesIn(indices, |params.items|)) &&
        (r.Err? ==> r.error == IndexError) &&
        (r.Ok? ==> Valid(r.value) && Shape(r.value) == Shape(indices) + Shape(params)[1..]))
  {
    assert Gather(params, indices, None, None, 0) == Take(params, indices, Some(0));
    if params.Array? {
      assert NormalizeAxis(0, |Shape(params)|) == Some(0);
      if IndicesIn(indices, |params.items|) {
        TakeShape(params, indices, 0);
        assert TakenShape(Shape(params), Shape(indices), 0) == Shape(indices) + Shape(params)[1..];
      }
    }
  }

  /** With the default axis, the element of `gather(params, indices)` at `j + post` is
      element `post` of the item that `indices[j]` picks. */
  lemma GatherDefaultAxisAt(params: Tensor, indices: Tensor, j: seq<nat>, post: seq<nat>)
    requires Valid(params) && Valid(indices) && params.Array? && IndicesIn(indices, |params.items|)
    requires InBounds(Shape(indices), j)
    ensures Gather(params, indices, None, None, 0).Ok?
    ensures -|params.items| <= At(indices, j) < |params.items|
    ensures At(Gather(params, indices, None, None, 0).value, j + post) ==
      At(params.items[Wrap(At(indices, j), |params.items|)], post)
  {
    assert Gather(params, indices, None, None, 0) == Take(params, indices, Some(0));
    assert NormalizeAxis(0, |Shape(params)|) == Some(0);
    PickAt(indices, params.items, params.inner, j, post);
  }

  /** The one-dimensional case: `gather(xs, ks)` has one element per index, and element
      `i` is `xs[ks[i]]` (negative indices counting from the end); an index outside
      [-|xs|, |xs|) is an IndexError. */
  lemma GatherVector(xs: seq<int>, ks: seq<int>)
    ensures var r := Gather(Vector(xs), Vector(ks), None, None, 0);
      (r.Ok? <==> forall i :: 0 <= i < |ks| ==> -|xs| <= ks[i] < |xs|) &&
      (r.Err? ==> r.error == IndexError) &&
      (r.Ok? ==> r.value == Vector(Gathered(xs, ks)))
    ensures GatherAsWritten(Vector(xs), Vector(ks), None, None, 0) == Gather(Vector(xs), Vector(ks), None, None, 0)
  {
    var v := Vector(xs);
    var ind := Vector(ks);
    VectorFlatten(xs);
    assert Vector(Flatten(v)) == v;
    assert Take(v, ind, None) == Take(v, ind, Some(0));
    assert IndicesIn(ind, |xs|) <==> forall i :: 0 <= i < |ks| ==> -|xs| <= ks[i] < |xs| by {
      forall i | 0 <= i < |ks| ensures IndicesIn(ind.items[i], |xs|) <==> -|xs| <= ks[i] < |xs| {
        assert ind.items[i] == Scalar(ks[i]);
      }
    }
    if IndicesIn(ind, |xs|) {
      var r := Pick(ind, v.items, []);
      var expected := Vector(Gathered(xs, ks));
      forall i | 0 <= i < |ks| ensures r.items[i] == expected.items[i] {
        assert ind.items[i] == Scalar(ks[i]);
        assert r.items[i] == Pick(ind.items[i], v.items, []);
      }
      assert r.items == expected.items;
      assert r.inner == expected.inner;
    }
  }

  /** `xs[ks[i]]` for each `i`, with negative indices counting from the end. */
  function Gathered(xs: seq<int>, ks: seq<int>): (r: seq<int>)
    requires forall i :: 0 <= i < |ks| ==> -|xs| <= ks[i] < |xs|
    ensures |r| == |ks|
  {
    seq(|ks|, i requires 0 <= i < |ks| => xs[Wrap(ks[i], |xs|)])
  }

  /** With the default axis, `_gather` as written gathers from the flattened array, not
      along its first axis: for `params = [[1, 2], [3, 4]]` and `indices = [1]` it gives
      `[2]` where `gather` gives the row `[[3, 4]]`. */
  lemma GatherDefaultAxisFlattens()
    ensures var params := Array([2], [Vector([1, 2]), Vector([3, 4])]);
      GatherAsWritten(params, Vector([1]), None, None, 0) == Ok(Vector([2])) &&
      Gather(params, Vector([1]), None, None, 0) == Ok(Array([2], [Vector([3, 4])]))
  {
    var params := Array([2], [Vector([1, 2]), Vector([3, 4])]);
    var ind := Vector([1]);
    assert ind.items == [Scalar(1)];
    VectorFlatten([1, 2]);
    VectorFlatten([3, 4]);
    var rows := seq(2, i requires 0 <= i < 2 => Flatten(params.items[i]));
    assert rows == [[1, 2], [3, 4]];
    assert Concat(rows) == [1, 2] + Concat([[3, 4]]);
    assert Concat([[3, 4]]) == [3, 4] + Concat([]);
    assert Flatten(params) == [1, 2, 3, 4];
    var flat := Vector([1, 2, 3, 4]);
    assert IndicesIn(ind.items[0], 4);
    var picked := Pick(ind, flat.items, []);
    assert picked.items[0] == flat.items[1] == Scalar(2);
    assert picked == Vector([2]);
    assert IndicesIn(ind.items[0], 2);
    var row := Pick(ind, params.items, [2]);
    assert row.items[0] == params.items[1];
    assert row == Array([2], [Vector([3, 4])]);
  }

  /** `_gather_nd` raises NotImplementedError whatever its arguments. */
  function GatherNd(params: Tensor, indices: Tensor, batchDims: int): (r: Result<Tensor>)
    ensures r.Err? && r.error.NotImplemented?
  {
    Err(NotImplemented(""))
  }
}
