/** `range`: `np.arange(start, limit, delta)` on integers. */
module Range {
  import opened Tensors

  /** `floor(a / b)` for a non-zero `b`. */
  function FloorDiv(a: int, b: int): int
    requires b != 0
  {
    if b > 0 then a / b else (-a) / (-b)
  }

  /** `ceil(a / b)` for a non-zero `b`. */
  function CeilDiv(a: int, b: int): int
    requires b != 0
  {
    -FloorDiv(-a, b)
  }

  /** The number of steps of `delta` from `start` before reaching `stop`:
      `ceil((stop - start) / delta)`, never below zero. */
  function Count(start: int, stop: int, delta: int): nat
    requires delta != 0
  {
    var c := CeilDiv(stop - start, delta);
    if c > 0 then c else 0
  }

  /** `range(start, limit, delta)`: without a limit it counts from 0 up to `start`; a zero
      step is NumPy's ZeroDivisionError. */
  function Range(start: int, limit: Option<int>, delta: int): (r: Result<Tensor>)
    ensures r.Ok? <==> delta != 0
    ensures r.Err? ==> r.error == ZeroDivisionError
  {
    if delta == 0 then Err(ZeroDivisionError)
    else
      var lo := if limit.None? then 0 else start;
      var hi := if limit.None? then start else limit.value;
      Ok(Vector(Steps(lo, Count(lo, hi, delta), delta)))
  }

  /** The first `n` terms of the progression `lo, lo + delta, ...`. */
  function Steps(lo: int, n: nat, delta: int): seq<int> {
    seq(n, i => lo + i * delta)
  }

  lemma MulMonotone(a: int, b: int, c: int)
    requires a <= b && c > 0
    ensures a * c <= b * c
  {
  }

  /** For a positive step, step `i` falls short of `d` exactly when `i < ceil(d / e)`. */
  lemma StepsBelow(d: int, e: int, i: nat)
    requires e > 0
    ensures i < CeilDiv(d, e) <==> i * e < d
  {
    var m := (-d) / e;
    var rem := (-d) % e;
    assert -d == m * e + rem && 0 <= rem < e;
    assert CeilDiv(d, e) == -m;
    if i < -m {
      MulMonotone(i, -m - 1, e);
      assert (-m - 1) * e == -(m * e) - e;
    } else {
      MulMonotone(-m, i, e);
      assert (-m) * e == -(m * e);
    }
  }

  /** Step `i` is before the stop exactly when `i` is less than the count. */
  lemma CountBound(start: int, stop: int, delta: int, i: nat)
    requires delta != 0
    ensures i < Count(start, stop, delta) <==>
      (if delta > 0 then start + i * delta < stop else start + i * delta > stop)
  {
    if delta > 0 {
      StepsBelow(stop - start, delta, i);
    } else {
      var e := -delta;
      assert CeilDiv(stop - start, delta) == CeilDiv(start - stop, e);
      StepsBelow(start - stop, e, i);
      assert i * delta == -(i * e);
    }
  }

  /** For a non-zero step, `range` is the one-dimensional array whose element `i` is
      `lo + i * delta`, and step `i` of the progression is in it exactly when it lies
      before the limit (below it for a positive step, above it for a negative one). */
  lemma RangeSpec(start: int, limit: Option<int>, delta: int, i: nat)
    requires delta != 0
    ensures var lo := if limit.None? then 0 else start;
      var hi := if limit.None? then start else limit.value;
      var r := Range(start, limit, delta).value;
      Valid(r) && |Shape(r)| == 1 &&
      (i < Shape(r)[0] <==> (if delta > 0 then lo + i * delta < hi else lo + i * delta > hi)) &&
      (i < Shape(r)[0] ==> At(r, [i]) == lo + i * delta)
  {
    var lo := if limit.None? then 0 else start;
    var hi := if limit.None? then start else limit.value;
    var xs := Steps(lo, Count(lo, hi, delta), delta);
    CountBound(lo, hi, delta, i);
    if i < |xs| {
      VectorAt(xs, i);
    }
  }

  /** `range(n)` is `0, 1, ..., n - 1`, and empty for a negative `n`. */
  lemma RangeUpTo(n: int)
    ensures Range(n, None, 1) == Ok(Vector(seq(if n > 0 then n else 0, i => i)))
  {
    var c := Count(0, n, 1);
    assert (-n) / 1 == -n;
    assert c == if n > 0 then n else 0;
    assert Steps(0, c, 1) == seq(c, i => i);
  }
}
