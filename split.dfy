/** `split`: `tf.split` sizes (with at most a `-1` placeholder) turned into the cut
    points `np.split` expects, and the pieces `np.split` cuts along an axis. */
module Split {
  import opened Tensors
  import opened Slicing

  /** `num_or_size_splits`: a number of equal sections, or a list of piece sizes. */
  datatype SplitArg = Sections(count: int) | Sizes(sizes: seq<int>)

  function Sum(xs: seq<int>): int {
    if xs == [] then 0 else Sum(xs[..|xs| - 1]) + xs[|xs| - 1]
  }

  /** The sum of the sizes that are not the placeholder -1. */
  function Known(xs: seq<int>): int {
    if xs == [] then 0 else Known(xs[..|xs| - 1]) + (if xs[|xs| - 1] == -1 then 0 else xs[|xs| - 1])
  }

  /** How many placeholders there are. */
  function Holes(xs: seq<int>): nat {
    if xs == [] then 0 else Holes(xs[..|xs| - 1]) + (if xs[|xs| - 1] == -1 then 1 else 0)
  }

  /** What is left of the axis once the known sizes are taken, never below zero. */
  function Remainder(sizes: seq<int>, dim: nat): nat {
    if dim - Known(sizes) > 0 then dim - Known(sizes) else 0
  }

  function Filled(xs: seq<int>, v: int): (r: seq<int>)
    ensures |r| == |xs|
  {
    seq(|xs|, i requires 0 <= i < |xs| => if xs[i] == -1 then v else xs[i])
  }

  /** The sizes with every -1 replaced by the remainder of the axis. */
  function Resolve(sizes: seq<int>, dim: nat): (r: seq<int>)
    ensures |r| == |sizes|
  {
    if -1 in sizes then Filled(sizes, Remainder(sizes, dim)) else sizes
  }

  /** `np.cumsum(xs)`. */
  function RunningSums(xs: seq<int>): (r: seq<int>)
    ensures |r| == |xs|
  {
    if xs == [] then [] else RunningSums(xs[..|xs| - 1]) + [Sum(xs)]
  }

  /** Entry `i` of the running sums is the sum of the first `i + 1` entries. */
  lemma {:induction false} RunningSumsAt(xs: seq<int>, i: nat)
    requires i < |xs|
    ensures RunningSums(xs)[i] == Sum(xs[..i + 1])
    decreases |xs|
  {
    var n := |xs| - 1;
    if i < n {
      RunningSumsAt(xs[..n], i);
      assert xs[..n][..i + 1] == xs[..i + 1];
    } else {
      assert xs[..i + 1] == xs;
    }
  }

  /** `np.cumsum(xs)[:-1]`: where each piece but the first begins. */
  function CutPoints(xs: seq<int>): (r: seq<int>)
    ensures |r| == if xs == [] then 0 else |xs| - 1
  {
    if xs == [] then [] else RunningSums(xs)[..|xs| - 1]
  }

  /** The boundaries `np.split` cuts at: 0, the cut points, and the end of the axis. */
  function Divisions(cuts: seq<int>, dim: nat): (r: seq<int>)
    ensures |r| == |cuts| + 2
  {
    [0] + cuts + [dim]
  }

  /** `n` sections of `dim / n` entries each. */
  function EqualSizes(dim: nat, n: nat): (r: seq<int>)
    requires n > 0
    ensures |r| == n
  {
    seq(n, _ => dim / n)
  }

  /** The boundaries of `n` equal sections of an axis of extent `dim`, as
      `np.array_split` computes them: the running sums of a 0 followed by the section
      sizes. */
  function Even(dim: nat, n: nat): (r: seq<int>)
    requires n > 0
    ensures |r| == n + 1
  {
    RunningSums([0] + EqualSizes(dim, n))
  }

  /** The extent of `lo:hi` on an axis of extent `n`. */
  function Extent(n: nat, lo: int, hi: int): nat {
    Positions(n, Bound(lo, Some(hi))).1 - Positions(n, Bound(lo, Some(hi))).0
  }

  /** `shape` with axis `k` cut to `lo:hi`. */
  function Cut(shape: seq<nat>, k: nat, lo: int, hi: int): (r: seq<nat>)
    ensures |r| == |shape|
  {
    if k < |shape| then shape[k := Extent(shape[k], lo, hi)] else shape
  }

  /** `t` cut to `lo:hi` along axis `k`, with Python slice semantics. */
  function Piece(t: Tensor, k: nat, lo: int, hi: int): Tensor
    decreases t
  {
    match t
    case Scalar(_) => t
    case Array(inner, items) =>
      if k == 0 then
        var p := Positions(|items|, Bound(lo, Some(hi)));
        Array(inner, items[p.0..p.1])
      else
        Array(Cut(inner, k - 1, lo, hi), seq(|items|, i requires 0 <= i < |items| => Piece(items[i], k - 1, lo, hi)))
  }

  /** The pieces between consecutive boundaries. */
  function Pieces(t: Tensor, k: nat, div: seq<int>): (r: seq<Tensor>)
    requires |div| >= 1
    ensures |r| == |div| - 1
  {
    seq(|div| - 1, i requires 0 <= i < |div| - 1 => Piece(t, k, div[i], div[i + 1]))
  }

  /** `_split(value, num_or_size_splits, axis)`. An axis outside [-rank, rank) is an
      IndexError (reading `shape[axis]`). The section count reaches `np.split` wrapped in a
      0-d array, so a zero count is not a division error there: NumPy's remainder by zero
      gives 0, and `np.array_split` then refuses a count below one. A count that is not
      positive or does not divide the axis is therefore a ValueError. A size list is
      resolved and cut at its running sums. */
  function SplitSpec(t: Tensor, arg: SplitArg, axis: int): Result<seq<Tensor>>
    requires Valid(t)
  {
    match NormalizeAxis(axis, |Shape(t)|)
    case None => Err(IndexError)
    case Some(k) =>
      var dim := Shape(t)[k];
      match arg
      case Sections(n) =>
        if n <= 0 || dim % n != 0 then Err(ValueError)
        else Ok(Pieces(t, k, Even(dim, n)))
      case Sizes(sizes) =>
        Ok(Pieces(t, k, Divisions(CutPoints(Resolve(sizes, dim)), dim)))
  }

  /** The cut points of a size list, computed as `_split` does: the placeholder's size is
      the rest of the axis, then the running sums without the last one. */
  method SplitPoints(sizes: seq<int>, dim: nat) returns (cuts: seq<int>)
    ensures cuts == CutPoints(Resolve(sizes, dim))
  {
    var resolved := ResolveSizes(sizes, dim);
    var sums := CumulativeSums(resolved);
    cuts := if sums == [] then [] else sums[..|sums| - 1];
  }

  /** The placeholder step of `_split`: when -1 occurs, the known sizes are added up and
      every -1 is replaced by what is left of the axis, never below zero. */
  method ResolveSizes(sizes: seq<int>, dim: nat) returns (resolved: seq<int>)
    ensures resolved == Resolve(sizes, dim)
  {
    resolved := sizes;
    if -1 in sizes {
      var total := 0;
      var i := 0;
      while i < |sizes|
        invariant 0 <= i <= |sizes|
        invariant total == Known(sizes[..i])
      {
        assert sizes[..i + 1][..i] == sizes[..i];
        if sizes[i] != -1 {
          total := total + sizes[i];
        }
        i := i + 1;
      }
      assert sizes[..i] == sizes;
      var remainder := if dim - total > 0 then dim - total else 0;
      resolved := [];
      i := 0;
      while i < |sizes|
        invariant 0 <= i <= |sizes|
        invariant resolved == Filled(sizes[..i], remainder)
      {
        resolved := resolved + [if sizes[i] == -1 then remainder else sizes[i]];
        i := i + 1;
      }
      assert sizes[..i] == sizes;
    }
  }

  /** `np.cumsum(xs)`, accumulated entry by entry. */
  method CumulativeSums(xs: seq<int>) returns (sums: seq<int>)
    ensures sums == RunningSums(xs)
  {
    sums := [];
    var acc := 0;
    var i := 0;
    while i < |xs|
      invariant 0 <= i <= |xs|
      invariant acc == Sum(xs[..i])
      invariant sums == RunningSums(xs[..i])
    {
      assert xs[..i + 1][..i] == xs[..i];
      acc := acc + xs[i];
      sums := sums + [acc];
      i := i + 1;
    }
    assert xs[..i] == xs;
  }

  /** `_split`, with the cut points computed by `SplitPoints`. */
  method Split(t: Tensor, arg: SplitArg, axis: int) returns (r: Result<seq<Tensor>>)
    requires Valid(t)
    ensures r == SplitSpec(t, arg, axis)
  {
    var k := NormalizeAxis(axis, |Shape(t)|);
    if k.None? {
      return Err(IndexError);
    }
    var dim := Shape(t)[k.value];
    match arg
    case Sections(n) =>
      if n <= 0 || dim % n != 0 {
        r := Err(ValueError);
      } else {
        r := Ok(Pieces(t, k.value, Even(dim, n)));
      }
    case Sizes(sizes) =>
      var cuts := SplitPoints(sizes, dim);
      r := Ok(Pieces(t, k.value, Divisions(cuts, dim)));
  }

  // ---------------------------------------------------------------------------
  // The sizes and cut points

  /** `split` returns as many pieces as there are sizes (one for an empty list), or the
      requested number of sections. */
  lemma SplitCount(t: Tensor, arg: SplitArg, axis: int)
    requires Valid(t)
    ensures SplitSpec(t, arg, axis).Ok? ==>
      |SplitSpec(t, arg, axis).value| ==
        match arg
        case Sections(n) => n
        case Sizes(sizes) => if sizes == [] then 1 else |sizes|
  {
  }

  /** `split` fails only on a bad axis (IndexError), or on a section count that is not
      positive or does not divide the axis (ValueError); a size list is always accepted. */
  lemma SplitErrors(t: Tensor, arg: SplitArg, axis: int)
    requires Valid(t)
    ensures var r := SplitSpec(t, arg, axis);
      (NormalizeAxis(axis, |Shape(t)|).None? ==> r == Err(IndexError)) &&
      (NormalizeAxis(axis, |Shape(t)|).Some? ==>
        var dim := Shape(t)[NormalizeAxis(axis, |Shape(t)|).value];
        (arg.Sizes? ==> r.Ok?) &&
        (arg.Sections? ==>
          (r.Ok? <==> arg.count > 0 && dim % arg.count == 0) &&
          (r.Err? ==> r == Err(ValueError))))
  {
  }

  lemma {:induction false} FilledSum(xs: seq<int>, v: int)
    ensures Sum(Filled(xs, v)) == Known(xs) + Holes(xs) * v
  {
    if xs != [] {
      var n := |xs| - 1;
      FilledSum(xs[..n], v);
      assert Filled(xs, v)[..n] == Filled(xs[..n], v);
    }
  }

  /** Each -1 becomes `max(0, dim - known)`, every other size is kept, and with a single
      placeholder among non-negative sizes that fit the axis the sizes fill it exactly. */
  lemma ResolveSpec(sizes: seq<int>, dim: nat)
    ensures forall i :: 0 <= i < |sizes| ==>
      Resolve(sizes, dim)[i] == if sizes[i] == -1 then Remainder(sizes, dim) else sizes[i]
    ensures Holes(sizes) == 1 && Known(sizes) <= dim ==> Sum(Resolve(sizes, dim)) == dim
  {
    if Holes(sizes) == 1 && Known(sizes) <= dim {
      HolesIn(sizes);
      FilledSum(sizes, Remainder(sizes, dim));
    }
  }

  lemma {:induction false} HolesIn(xs: seq<int>)
    ensures Holes(xs) > 0 <==> -1 in xs
  {
    if xs != [] {
      var n := |xs| - 1;
      HolesIn(xs[..n]);
      assert xs == xs[..n] + [xs[n]];
    }
  }

  lemma SumSnoc(xs: seq<int>, i: nat)
    requires i < |xs|
    ensures Sum(xs[..i + 1]) == Sum(xs[..i]) + xs[i]
  {
    assert xs[..i + 1][..i] == xs[..i];
  }

  /** For sizes that are all non-negative and add up to the axis, boundary `i` is the sum
      of the first `i` sizes: the cut points are the running sums without the last. */
  lemma DivisionsAt(sizes: seq<int>, dim: nat, i: nat)
    requires sizes != [] && Sum(sizes) == dim && i <= |sizes|
    ensures Divisions(CutPoints(sizes), dim)[i] == Sum(sizes[..i])
  {
    var div := Divisions(CutPoints(sizes), dim);
    if i == 0 {
    } else if i == |sizes| {
      assert sizes[..i] == sizes;
    } else {
      assert div[i] == CutPoints(sizes)[i - 1] == RunningSums(sizes)[i - 1];
      RunningSumsAt(sizes, i - 1);
    }
  }

  lemma {:induction false} SumMonotone(xs: seq<int>, i: nat, j: nat)
    requires i <= j <= |xs| && forall m :: 0 <= m < |xs| ==> xs[m] >= 0
    ensures 0 <= Sum(xs[..i]) <= Sum(xs[..j])
    decreases j
  {
    if j > 0 {
      if i < j {
        SumMonotone(xs, i, j - 1);
      } else {
        SumMonotone(xs, 0, j - 1);
      }
      SumSnoc(xs, j - 1);
    }
  }

  // ---------------------------------------------------------------------------
  // The pieces

  /** A piece is rectangular and keeps every axis but `k`, which it cuts to `lo:hi`. */
  lemma {:induction false} PieceShape(t: Tensor, k: nat, lo: int, hi: int)
    requires Valid(t) && k < |Shape(t)|
    ensures Valid(Piece(t, k, lo, hi))
    ensures Shape(Piece(t, k, lo, hi)) == Cut(Shape(t), k, lo, hi)
    decreases t
  {
    match t
    case Array(inner, items) =>
      if k == 0 {
        PieceShapeFirst(t, lo, hi);
      } else {
        forall i | 0 <= i < |items|
          ensures Valid(Piece(items[i], k - 1, lo, hi)) && Shape(Piece(items[i], k - 1, lo, hi)) == Cut(inner, k - 1, lo, hi)
        {
          PieceShape(items[i], k - 1, lo, hi);
        }
        PieceShapeStep(t, k, lo, hi);
      }
  }

  lemma PieceShapeFirst(t: Tensor, lo: int, hi: int)
    requires Valid(t) && t.Array?
    ensures Valid(Piece(t, 0, lo, hi)) && Shape(Piece(t, 0, lo, hi)) == Cut(Shape(t), 0, lo, hi)
  {
    var p := Positions(|t.items|, Bound(lo, Some(hi)));
    var r := Piece(t, 0, lo, hi);
    assert r.items == t.items[p.0..p.1];
    forall i | 0 <= i < |r.items| ensures Valid(r.items[i]) && Shape(r.items[i]) == r.inner {
      assert r.items[i] == t.items[p.0 + i];
    }
    assert Shape(r) == [p.1 - p.0] + t.inner;
    CutCons(|t.items|, t.inner, 0, lo, hi);
  }

  /** The step of `PieceShape` past the first axis: rectangular pieces of the items make a
      rectangular piece of `t`. */
  lemma PieceShapeStep(t: Tensor, k: nat, lo: int, hi: int)
    requires t.Array? && 0 < k <= |t.inner|
    requires forall i :: 0 <= i < |t.items| ==>
      Valid(Piece(t.items[i], k - 1, lo, hi)) && Shape(Piece(t.items[i], k - 1, lo, hi)) == Cut(t.inner, k - 1, lo, hi)
    ensures Valid(Piece(t, k, lo, hi)) && Shape(Piece(t, k, lo, hi)) == Cut(Shape(t), k, lo, hi)
  {
    var r := Piece(t, k, lo, hi);
    assert r.inner == Cut(t.inner, k - 1, lo, hi);
    forall i | 0 <= i < |r.items| ensures Valid(r.items[i]) && Shape(r.items[i]) == r.inner {
      PieceItem(t, k, lo, hi, i);
    }
    CutCons(|t.items|, t.inner, k, lo, hi);
  }

  /** Cutting axis `k` of `[n] + inner`: the first extent becomes the slice's for `k == 0`,
      otherwise the cut moves into `inner`. */
  lemma CutCons(n: nat, inner: seq<nat>, k: nat, lo: int, hi: int)
    requires k <= |inner|
    ensures Cut([n] + inner, k, lo, hi) ==
      if k == 0 then [Extent(n, lo, hi)] + inner else [n] + Cut(inner, k - 1, lo, hi)
  {
    if k == 0 {
      assert ([n] + inner)[0 := Extent(n, lo, hi)] == [Extent(n, lo, hi)] + inner;
    } else {
      assert ([n] + inner)[k := Extent(inner[k - 1], lo, hi)] == [n] + inner[k - 1 := Extent(inner[k - 1], lo, hi)];
    }
  }

  /** Where the slice `lo:hi` of an axis of extent `n` starts. */
  function Start(n: nat, lo: int, hi: int): nat {
    Positions(n, Bound(lo, Some(hi))).0
  }

  /** `idx` moved forward by `d` along axis `k`. */
  function Moved(idx: seq<nat>, k: nat, d: nat): (r: seq<nat>)
    requires k < |idx|
    ensures |r| == |idx|
  {
    idx[k := idx[k] + d]
  }

  /** Moving `idx` along axis `k > 0` leaves its first entry alone. */
  lemma MovedCons(idx: seq<nat>, k: nat, d: nat)
    requires 0 < k < |idx|
    ensures Moved(idx, k, d) == [idx[0]] + Moved(idx[1..], k - 1, d)
  {
  }

  lemma PieceItem(t: Tensor, k: nat, lo: int, hi: int, i: nat)
    requires t.Array? && k > 0 && i < |t.items|
    ensures Piece(t, k, lo, hi).Array? && |Piece(t, k, lo, hi).items| == |t.items|
    ensures Piece(t, k, lo, hi).items[i] == Piece(t.items[i], k - 1, lo, hi)
  {
  }

  /** Along the first axis, a piece's item `i` is item `i + start` of `t`. */
  lemma PieceAtFirst(t: Tensor, lo: int, hi: int, idx: seq<nat>)
    requires Valid(t) && t.Array? && InBounds(Cut(Shape(t), 0, lo, hi), idx)
    ensures InBounds(Shape(t), Moved(idx, 0, Start(|t.items|, lo, hi)))
    ensures At(Piece(t, 0, lo, hi), idx) == At(t, Moved(idx, 0, Start(|t.items|, lo, hi)))
  {
    PieceFirstStep(t, lo, hi, idx);
    PieceFirstJoin(t, Start(|t.items|, lo, hi), idx);
  }

  lemma PieceFirstStep(t: Tensor, lo: int, hi: int, idx: seq<nat>)
    requires Valid(t) && t.Array? && InBounds(Cut(Shape(t), 0, lo, hi), idx)
    ensures idx != [] && |idx| == |Shape(t)| && idx[0] + Start(|t.items|, lo, hi) < |t.items|
    ensures InBounds(t.inner, idx[1..])
    ensures At(Piece(t, 0, lo, hi), idx) == At(t.items[idx[0] + Start(|t.items|, lo, hi)], idx[1..])
  {
    ShapeCons(t);
    CutCons(|t.items|, t.inner, 0, lo, hi);
    ConsTail(Extent(|t.items|, lo, hi), t.inner);
    InBoundsTail(Cut(Shape(t), 0, lo, hi), idx);
    assert idx[0] < Cut(Shape(t), 0, lo, hi)[0];
    PieceFirstItem(t, lo, hi, idx[0]);
    AtHead(Piece(t, 0, lo, hi), idx);
  }

  lemma PieceFirstJoin(t: Tensor, start: nat, idx: seq<nat>)
    requires t.Array? && idx != [] && |idx| == |Shape(t)| && idx[0] + start < |t.items|
    requires InBounds(t.inner, idx[1..])
    ensures InBounds(Shape(t), Moved(idx, 0, start))
    ensures At(t, Moved(idx, 0, start)) == At(t.items[idx[0] + start], idx[1..])
  {
    var moved := Moved(idx, 0, start);
    MovedFirst(idx, start);
    AtSplit(t, moved, idx[0] + start, idx[1..]);
    ShapeCons(t);
    InBoundsHead(Shape(t), moved);
  }

  lemma PieceFirstItem(t: Tensor, lo: int, hi: int, i: nat)
    requires t.Array? && i < Extent(|t.items|, lo, hi)
    ensures var r := Piece(t, 0, lo, hi);
      r.Array? && |r.items| == Extent(|t.items|, lo, hi) &&
      i + Start(|t.items|, lo, hi) < |t.items| && r.items[i] == t.items[i + Start(|t.items|, lo, hi)]
  {
  }

  lemma MovedFirst(idx: seq<nat>, d: nat)
    requires idx != []
    ensures Moved(idx, 0, d)[0] == idx[0] + d && Moved(idx, 0, d)[1..] == idx[1..]
  {
    assert Moved(idx, 0, d)[1..] == idx[1..];
  }

  /** The element of a piece at `idx` is the element of `t` at `idx` moved along axis `k`
      by the slice's start. */
  lemma {:induction false} PieceAt(t: Tensor, k: nat, lo: int, hi: int, idx: seq<nat>)
    requires Valid(t) && k < |Shape(t)|
    requires InBounds(Cut(Shape(t), k, lo, hi), idx)
    ensures InBounds(Shape(t), Moved(idx, k, Start(Shape(t)[k], lo, hi)))
    ensures At(Piece(t, k, lo, hi), idx) == At(t, Moved(idx, k, Start(Shape(t)[k], lo, hi)))
    decreases t
  {
    if k == 0 {
      PieceAtFirst(t, lo, hi, idx);
    } else {
      PieceStep(t, k, lo, hi, idx);
      PieceAt(t.items[idx[0]], k - 1, lo, hi, idx[1..]);
      PieceJoin(t, k, lo, hi, idx);
    }
  }

  /** One level of `PieceAt` past the first axis: the piece's element at `idx` is in the
      piece of item `idx[0]`. */
  lemma PieceStep(t: Tensor, k: nat, lo: int, hi: int, idx: seq<nat>)
    requires Valid(t) && 0 < k < |Shape(t)| && InBounds(Cut(Shape(t), k, lo, hi), idx)
    ensures t.Array? && idx != [] && idx[0] < |t.items|
    ensures Valid(t.items[idx[0]]) && Shape(t.items[idx[0]]) == t.inner && t.inner[k - 1] == Shape(t)[k]
    ensures InBounds(Cut(t.inner, k - 1, lo, hi), idx[1..])
    ensures At(Piece(t, k, lo, hi), idx) == At(Piece(t.items[idx[0]], k - 1, lo, hi), idx[1..])
  {
    ShapeCons(t);
    CutCons(|t.items|, t.inner, k, lo, hi);
    ConsTail(|t.items|, Cut(t.inner, k - 1, lo, hi));
    InBoundsTail(Cut(Shape(t), k, lo, hi), idx);
    PieceItem(t, k, lo, hi, idx[0]);
    AtHead(Piece(t, k, lo, hi), idx);
  }

  /** The step of `PieceAt` past the first axis: what holds for item `idx[0]` holds for `t`. */
  lemma PieceJoin(t: Tensor, k: nat, lo: int, hi: int, idx: seq<nat>)
    requires t.Array? && 0 < k < |Shape(t)| && |idx| == |Shape(t)| && idx[0] < |t.items|
    requires var rest := Moved(idx[1..], k - 1, Start(Shape(t)[k], lo, hi));
      InBounds(t.inner, rest) && At(Piece(t, k, lo, hi), idx) == At(t.items[idx[0]], rest)
    ensures InBounds(Shape(t), Moved(idx, k, Start(Shape(t)[k], lo, hi)))
    ensures At(Piece(t, k, lo, hi), idx) == At(t, Moved(idx, k, Start(Shape(t)[k], lo, hi)))
  {
    var start := Start(Shape(t)[k], lo, hi);
    var moved := Moved(idx, k, start);
    MovedCons(idx, k, start);
    ConsTail(idx[0], Moved(idx[1..], k - 1, start));
    AtSplit(t, moved, idx[0], Moved(idx[1..], k - 1, start));
    ShapeCons(t);
    InBoundsHead(Shape(t), moved);
  }

  /** A list of sizes without placeholders is cut at its own running sums. */
  lemma SizesPiece(t: Tensor, sizes: seq<int>, axis: int, i: nat)
    requires Valid(t) && NormalizeAxis(axis, |Shape(t)|).Some?
    requires forall m :: 0 <= m < |sizes| ==> sizes[m] >= 0
    requires Sum(sizes) == Shape(t)[NormalizeAxis(axis, |Shape(t)|).value]
    requires i < |sizes|
    ensures SplitSpec(t, Sizes(sizes), axis).Ok? && |SplitSpec(t, Sizes(sizes), axis).value| == |sizes|
    ensures 0 <= Sum(sizes[..i]) <= Sum(sizes[..i + 1]) <= Sum(sizes)
    ensures SplitSpec(t, Sizes(sizes), axis).value[i] ==
      Piece(t, NormalizeAxis(axis, |Shape(t)|).value, Sum(sizes[..i]), Sum(sizes[..i + 1]))
  {
    var k := NormalizeAxis(axis, |Shape(t)|).value;
    var dim := Shape(t)[k];
    assert !(-1 in sizes);
    var div := Divisions(CutPoints(sizes), dim);
    assert SplitSpec(t, Sizes(sizes), axis) == Ok(Pieces(t, k, div));
    DivisionsAt(sizes, dim, i);
    DivisionsAt(sizes, dim, i + 1);
    SumMonotone(sizes, i, i + 1);
    SumMonotone(sizes, i + 1, |sizes|);
    assert sizes[..|sizes|] == sizes;
  }

  /** For non-negative sizes that add up to the axis, `split` succeeds with one piece per
      size; piece `i` has extent `sizes[i]` along the axis and every other extent of `t`,
      and its element at `idx` is the element of `t` at `idx` moved along the axis by the
      sizes before it. */
  lemma SplitSizes(t: Tensor, sizes: seq<int>, axis: int, i: nat, idx: seq<nat>)
    requires Valid(t) && NormalizeAxis(axis, |Shape(t)|).Some?
    requires forall m :: 0 <= m < |sizes| ==> sizes[m] >= 0
    requires Sum(sizes) == Shape(t)[NormalizeAxis(axis, |Shape(t)|).value]
    requires i < |sizes|
    ensures SplitSpec(t, Sizes(sizes), axis).Ok? && |SplitSpec(t, Sizes(sizes), axis).value| == |sizes|
    ensures 0 <= Sum(sizes[..i])
    ensures var k := NormalizeAxis(axis, |Shape(t)|).value;
      var piece := SplitSpec(t, Sizes(sizes), axis).value[i];
      Valid(piece) && Shape(piece) == Shape(t)[k := sizes[i]] &&
      (InBounds(Shape(piece), idx) ==>
        InBounds(Shape(t), Moved(idx, k, Sum(sizes[..i]))) &&
        At(piece, idx) == At(t, Moved(idx, k, Sum(sizes[..i]))))
  {
    var k := NormalizeAxis(axis, |Shape(t)|).value;
    var lo, hi := Sum(sizes[..i]), Sum(sizes[..i + 1]);
    var r := SplitSpec(t, Sizes(sizes), axis);
    assert 0 <= lo <= hi <= Shape(t)[k] && hi - lo == sizes[i] by {
      SizesPiece(t, sizes, axis, i);
      SumSnoc(sizes, i);
    }
    assert r.Ok? && |r.value| == |sizes| && r.value[i] == Piece(t, k, lo, hi) by {
      SizesPiece(t, sizes, axis, i);
    }
    PieceWithin(t, k, lo, hi, idx);
  }

  /** A size list with one -1 among non-negative sizes that fit the axis is split exactly
      as its resolved list is, and the resolved sizes are non-negative and fill the axis. */
  lemma ResolvePlaceholder(t: Tensor, sizes: seq<int>, axis: int)
    requires Valid(t) && NormalizeAxis(axis, |Shape(t)|).Some?
    requires Holes(sizes) == 1 && forall m :: 0 <= m < |sizes| && sizes[m] != -1 ==> sizes[m] >= 0
    requires Known(sizes) <= Shape(t)[NormalizeAxis(axis, |Shape(t)|).value]
    ensures var dim := Shape(t)[NormalizeAxis(axis, |Shape(t)|).value];
      var resolved := Resolve(sizes, dim);
      sizes != [] &&
      (forall m :: 0 <= m < |resolved| ==> resolved[m] >= 0) && Sum(resolved) == dim &&
      SplitSpec(t, Sizes(sizes), axis) == SplitSpec(t, Sizes(resolved), axis)
  {
    var dim := Shape(t)[NormalizeAxis(axis, |Shape(t)|).value];
    var resolved := Resolve(sizes, dim);
    ResolveSpec(sizes, dim);
    assert forall m :: 0 <= m < |resolved| ==> resolved[m] >= 0;
    assert !(-1 in resolved);
    assert Resolve(resolved, dim) == resolved;
  }

  /** With one -1 among non-negative sizes that fit the axis, `split` gives one piece per
      size; piece `i` has extent `Resolve(sizes, dim)[i]` along the axis and every other
      extent of `t`, and its element at `idx` is the element of `t` at `idx` moved along the
      axis by the resolved sizes before it. */
  lemma SplitPlaceholder(t: Tensor, sizes: seq<int>, axis: int, i: nat, idx: seq<nat>)
    requires Valid(t) && NormalizeAxis(axis, |Shape(t)|).Some?
    requires Holes(sizes) == 1 && forall m :: 0 <= m < |sizes| && sizes[m] != -1 ==> sizes[m] >= 0
    requires Known(sizes) <= Shape(t)[NormalizeAxis(axis, |Shape(t)|).value]
    requires i < |sizes|
    ensures SplitSpec(t, Sizes(sizes), axis).Ok? && |SplitSpec(t, Sizes(sizes), axis).value| == |sizes|
    ensures var k := NormalizeAxis(axis, |Shape(t)|).value;
      var resolved := Resolve(sizes, Shape(t)[k]);
      var piece := SplitSpec(t, Sizes(sizes), axis).value[i];
      resolved[i] >= 0 && 0 <= Sum(resolved[..i]) &&
      Valid(piece) && Shape(piece) == Shape(t)[k := resolved[i]] &&
      (InBounds(Shape(piece), idx) ==>
        InBounds(Shape(t), Moved(idx, k, Sum(resolved[..i]))) &&
        At(piece, idx) == At(t, Moved(idx, k, Sum(resolved[..i]))))
  {
    ResolvePlaceholder(t, sizes, axis);
    var k := NormalizeAxis(axis, |Shape(t)|).value;
    SplitSizes(t, Resolve(sizes, Shape(t)[k]), axis, i, idx);
  }

  /** A piece `lo:hi` inside the axis has extent `hi - lo` there, and its element at `idx`
      is the element of `t` at `idx` moved by `lo` along the axis. */
  lemma PieceWithin(t: Tensor, k: nat, lo: nat, hi: nat, idx: seq<nat>)
    requires Valid(t) && k < |Shape(t)| && lo <= hi <= Shape(t)[k]
    ensures Valid(Piece(t, k, lo, hi)) && Shape(Piece(t, k, lo, hi)) == Shape(t)[k := hi - lo]
    ensures InBounds(Shape(Piece(t, k, lo, hi)), idx) ==>
      InBounds(Shape(t), Moved(idx, k, lo)) && At(Piece(t, k, lo, hi), idx) == At(t, Moved(idx, k, lo))
  {
    assert Positions(Shape(t)[k], Bound(lo, Some(hi))) == (lo, hi);
    assert Start(Shape(t)[k], lo, hi) == lo;
    assert Cut(Shape(t), k, lo, hi) == Shape(t)[k := hi - lo];
    PieceShape(t, k, lo, hi);
    if InBounds(Shape(Piece(t, k, lo, hi)), idx) {
      PieceAt(t, k, lo, hi, idx);
    }
  }

  lemma {:induction false} SumConstant(m: nat, e: int)
    ensures Sum(seq(m, _ => e)) == m * e
  {
    if m > 0 {
      SumConstant(m - 1, e);
      assert seq(m, _ => e)[..m - 1] == seq(m - 1, _ => e);
    }
  }

  lemma {:induction false} SumLeadingZero(xs: seq<int>)
    ensures Sum([0] + xs) == Sum(xs)
  {
    if xs != [] {
      var n := |xs| - 1;
      SumLeadingZero(xs[..n]);
      assert ([0] + xs)[..|xs|] == [0] + xs[..n];
    }
  }

  /** Splitting into `n` sections that divide the axis is splitting into `n` sizes of
      `dim / n`. */
  lemma SectionsAreSizes(t: Tensor, n: int, axis: int)
    requires Valid(t) && NormalizeAxis(axis, |Shape(t)|).Some?
    requires var dim := Shape(t)[NormalizeAxis(axis, |Shape(t)|).value]; n > 0 && dim % n == 0
    ensures var dim := Shape(t)[NormalizeAxis(axis, |Shape(t)|).value];
      SplitSpec(t, Sections(n), axis) == SplitSpec(t, Sizes(EqualSizes(dim, n)), axis)
  {
    var k := NormalizeAxis(axis, |Shape(t)|).value;
    var dim := Shape(t)[k];
    EvenDivisions(dim, n);
    assert SplitSpec(t, Sections(n), axis) == Ok(Pieces(t, k, Even(dim, n)));
  }

  /** The boundaries of `n` equal sections are those of `n` sizes of `dim / n`, which need
      no resolving. */
  lemma EvenDivisions(dim: nat, n: int)
    requires n > 0 && dim % n == 0
    ensures Resolve(EqualSizes(dim, n), dim) == EqualSizes(dim, n)
    ensures Even(dim, n) == Divisions(CutPoints(EqualSizes(dim, n)), dim)
  {
    var sizes := EqualSizes(dim, n);
    ExactDivision(dim, n);
    SumConstant(n, dim / n);
    assert Sum(sizes) == dim;
    assert !(-1 in sizes);
    var even := Even(dim, n);
    var div := Divisions(CutPoints(sizes), dim);
    forall j | 0 <= j <= n ensures even[j] == div[j] {
      RunningSumsAt([0] + sizes, j);
      assert ([0] + sizes)[..j + 1] == [0] + sizes[..j];
      SumLeadingZero(sizes[..j]);
      DivisionsAt(sizes, dim, j);
    }
    assert even == div;
  }

  /** A section count `n` that divides the axis gives `n` pieces, each `dim / n` long
      along the axis and keeping every other extent of `t`. */
  lemma SplitSections(t: Tensor, n: int, axis: int, i: nat)
    requires Valid(t) && NormalizeAxis(axis, |Shape(t)|).Some?
    requires var dim := Shape(t)[NormalizeAxis(axis, |Shape(t)|).value]; n > 0 && dim % n == 0
    requires i < n
    ensures SplitSpec(t, Sections(n), axis).Ok? && |SplitSpec(t, Sections(n), axis).value| == n
    ensures var k := NormalizeAxis(axis, |Shape(t)|).value;
      var e: nat := EqualSizes(Shape(t)[k], n)[i];
      var piece := SplitSpec(t, Sections(n), axis).value[i];
      e == Shape(t)[k] / n && Valid(piece) && Shape(piece) == Shape(t)[k := e]
  {
    var k := NormalizeAxis(axis, |Shape(t)|).value;
    var dim := Shape(t)[k];
    var sizes := EqualSizes(dim, n);
    SectionsAreSizes(t, n, axis);
    ExactDivision(dim, n);
    SumConstant(n, dim / n);
    assert forall m :: 0 <= m < |sizes| ==> sizes[m] >= 0;
    assert Sum(sizes) == dim;
    SplitSizes(t, sizes, axis, i, []);
  }

  lemma ExactDivision(dim: nat, n: int)
    requires n > 0 && dim % n == 0
    ensures dim / n >= 0 && n * (dim / n) == dim
  {
  }

  // ---------------------------------------------------------------------------
  // Splitting along the first axis and joining back

  /** The items of `pieces` one after another: `concat` along the first axis. */
  function Rejoin(pieces: seq<Tensor>): seq<Tensor> {
    if pieces == [] then [] else
      (match pieces[0] case Scalar(_) => [] case Array(_, items) => items) + Rejoin(pieces[1..])
  }

  lemma FirstAxisPiece(t: Tensor, lo: nat, hi: nat)
    requires t.Array? && lo <= hi <= |t.items|
    ensures Piece(t, 0, lo, hi) == Array(t.inner, t.items[lo..hi])
  {
    assert Positions(|t.items|, Bound(lo, Some(hi))) == (lo, hi);
  }

  lemma PiecesTail(t: Tensor, k: nat, div: seq<int>)
    requires |div| >= 2
    ensures Pieces(t, k, div)[0] == Piece(t, k, div[0], div[1])
    ensures Pieces(t, k, div)[1..] == Pieces(t, k, div[1..])
  {
    var a := Pieces(t, k, div)[1..];
    var b := Pieces(t, k, div[1..]);
    forall m | 0 <= m < |a| ensures a[m] == b[m] {
      assert div[1..][m] == div[m + 1] && div[1..][m + 1] == div[m + 2];
    }
  }

  lemma SliceJoin<T>(xs: seq<T>, a: nat, b: nat, c: nat)
    requires a <= b <= c <= |xs|
    ensures xs[a..b] + xs[b..c] == xs[a..c]
  {
  }

  lemma {:induction false} RejoinPieces(t: Tensor, div: seq<int>)
    requires t.Array? && |div| >= 1
    requires forall m :: 0 <= m < |div| ==> 0 <= div[m] <= |t.items|
    requires forall m :: 0 <= m < |div| - 1 ==> div[m] <= div[m + 1]
    ensures div[0] <= div[|div| - 1]
    ensures Rejoin(Pieces(t, 0, div)) == t.items[div[0]..div[|div| - 1]]
    decreases |div|
  {
    if |div| > 1 {
      var a, b, c := div[0], div[1], div[|div| - 1];
      var ps := Pieces(t, 0, div);
      RejoinPieces(t, div[1..]);
      assert div[1..][|div| - 2] == c;
      FirstAxisPiece(t, a, b);
      PiecesTail(t, 0, div);
      assert Rejoin(ps) == t.items[a..b] + Rejoin(Pieces(t, 0, div[1..]));
      SliceJoin(t.items, a, b, c);
    }
  }

  /** Splitting along the first axis into non-negative sizes that add up to it, then
      joining the pieces back, gives the items of `t` again. */
  lemma SplitThenRejoin(t: Tensor, sizes: seq<int>)
    requires Valid(t) && t.Array? && sizes != []
    requires forall m :: 0 <= m < |sizes| ==> sizes[m] >= 0
    requires Sum(sizes) == |t.items|
    ensures SplitSpec(t, Sizes(sizes), 0).Ok?
    ensures Rejoin(SplitSpec(t, Sizes(sizes), 0).value) == t.items
  {
    var dim := |t.items|;
    assert NormalizeAxis(0, |Shape(t)|) == Some(0);
    assert !(-1 in sizes);
    var div := Divisions(CutPoints(sizes), dim);
    forall m | 0 <= m < |div| ensures div[m] == Sum(sizes[..m]) && 0 <= div[m] <= dim {
      DivisionsAt(sizes, dim, m);
      SumMonotone(sizes, m, |sizes|);
      assert sizes[..|sizes|] == sizes;
    }
    forall m | 0 <= m < |div| - 1 ensures div[m] <= div[m + 1] {
      SumMonotone(sizes, m, m + 1);
    }
    RejoinPieces(t, div);
    assert t.items[0..dim] == t.items;
  }

  /** With one -1 among non-negative sizes that fit the first axis, splitting and then
      joining the pieces back gives the items of `t` again. */
  lemma SplitPlaceholderThenRejoin(t: Tensor, sizes: seq<int>)
    requires Valid(t) && t.Array?
    requires Holes(sizes) == 1 && forall m :: 0 <= m < |sizes| && sizes[m] != -1 ==> sizes[m] >= 0
    requires Known(sizes) <= |t.items|
    ensures SplitSpec(t, Sizes(sizes), 0).Ok?
    ensures Rejoin(SplitSpec(t, Sizes(sizes), 0).value) == t.items
  {
    assert NormalizeAxis(0, |Shape(t)|) == Some(0);
    ResolvePlaceholder(t, sizes, 0);
    SplitThenRejoin(t, Resolve(sizes, |t.items|));
  }
}
