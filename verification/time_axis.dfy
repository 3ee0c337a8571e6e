/** Time-axis arithmetic of the crash-repair engines: `restructure_arr`
    (rebuild a time axis whose zero steps become the median step),
    `np.linspace`, `np.arange` and `np.interp`. Timestamps are exact reals. */
module TimeAxis {
  import opened Table
  import opened Sorting

  /** `np.diff`. */
  function Diffs(arr: seq<real>): (d: seq<real>)
    ensures |arr| > 0 ==> |d| == |arr| - 1
    ensures |arr| == 0 ==> d == []
    ensures forall k :: 0 <= k < |d| ==> d[k] == arr[k + 1] - arr[k]
  {
    if |arr| <= 1 then []
    else seq(|arr| - 1, k requires 0 <= k < |arr| - 1 => arr[k + 1] - arr[k])
  }

  /** The steps `restructure_arr` accumulates: each zero difference replaced
      by the median of all differences, every other difference kept. */
  function Steps(d: seq<real>): (s: seq<real>)
    ensures |s| == |d|
  {
    seq(|d|, k requires 0 <= k < |d| => if d[k] == 0.0 then Median(d) else d[k])
  }

  /** `x0` followed by `x0` plus each running sum of `steps`. */
  function Accumulate(x0: real, steps: seq<real>): (r: seq<real>)
    ensures |r| == |steps| + 1
    ensures r[0] == x0
    ensures forall k :: 0 <= k < |steps| ==> r[k + 1] - r[k] == steps[k]
    decreases |steps|
  {
    if steps == [] then [x0]
    else [x0] + Accumulate(x0 + steps[0], steps[1..])
  }

  /** `restructure_arr`: same length, same first element, and every step is
      the original difference, or the median difference where that is zero. */
  function Restructure(arr: seq<real>): (r: seq<real>)
    requires |arr| > 0
    ensures |r| == |arr|
    ensures r[0] == arr[0]
    ensures forall k :: 0 <= k < |arr| - 1 ==>
      r[k + 1] - r[k] == if arr[k + 1] - arr[k] == 0.0 then Median(Diffs(arr)) else arr[k + 1] - arr[k]
  {
    Accumulate(arr[0], Steps(Diffs(arr)))
  }

  /** Without a zero step the rebuilt axis is the original one. */
  lemma RestructureIdentity(arr: seq<real>)
    requires |arr| > 0
    requires forall k :: 0 <= k < |arr| - 1 ==> arr[k + 1] != arr[k]
    ensures Restructure(arr) == arr
  {
    var r := Restructure(arr);
    for k := 0 to |arr|
      invariant forall i :: 0 <= i < k ==> r[i] == arr[i]
    {
      if k > 0 {
        assert r[k] - r[k - 1] == arr[k] - arr[k - 1];
      }
    }
  }

  /** Ties in a non-decreasing axis are repaired when the median step is
      positive: the rebuilt axis then increases strictly, which is what the
      fallback fit needs. */
  lemma RestructureRepairsTies(arr: seq<real>)
    requires |arr| >= 2
    requires NonDecreasing(arr)
    requires Median(Diffs(arr)) > 0.0
    ensures StrictlyIncreasing(Restructure(arr))
  {
    var r := Restructure(arr);
    forall k | 0 < k < |r| ensures r[k - 1] < r[k] {
      assert r[k] - r[k - 1] == if arr[k] - arr[k - 1] == 0.0 then Median(Diffs(arr)) else arr[k] - arr[k - 1];
    }
  }

  lemma SortOfTieSteps(step: real)
    requires step > 0.0
    ensures Sort([0.0, 0.0, step]) == [0.0, 0.0, step]
  {
    assert Sort([step]) == [step];
    assert [0.0, step][1..] == [step];
    assert Sort([0.0, step]) == [0.0, step];
    assert [0.0, 0.0, step][1..] == [0.0, step];
  }

  /** When at most half of the steps of a non-decreasing axis are positive the
      median step is zero, and the rebuilt axis keeps its ties: a time read
      three times and then a later one is left as it is. */
  lemma RestructureKeepsTie(t0: real, t1: real)
    requires t0 < t1
    ensures Restructure([t0, t0, t0, t1]) == [t0, t0, t0, t1]
    ensures !StrictlyIncreasing(Restructure([t0, t0, t0, t1]))
  {
    var arr := [t0, t0, t0, t1];
    MedianOfTie(t0, t1);
    var r := Restructure(arr);
    assert r[0] == t0;
    assert r[1] == t0 by { assert arr[1] - arr[0] == 0.0; }
    assert r[2] == t0 by { assert arr[2] - arr[1] == 0.0; }
    assert r[3] == t1 by { assert arr[3] - arr[2] == t1 - t0 != 0.0; }
    assert r == arr;
  }

  lemma MedianOfTie(t0: real, t1: real)
    requires t0 < t1
    ensures Median(Diffs([t0, t0, t0, t1])) == 0.0
  {
    var arr := [t0, t0, t0, t1];
    var d := Diffs(arr);
    assert d == [0.0, 0.0, t1 - t0] by {
      assert d[0] == arr[1] - arr[0] == 0.0;
      assert d[1] == arr[2] - arr[1] == 0.0;
      assert d[2] == arr[3] - arr[2];
    }
    MedianOfTieSteps(t1 - t0);
  }

  lemma MedianOfTieSteps(step: real)
    requires step > 0.0
    ensures Median([0.0, 0.0, step]) == 0.0
  {
    SortOfTieSteps(step);
  }

  /** Negative steps are kept, so a rebuilt axis need not increase. */
  lemma RestructureKeepsBackwardStep(t0: real, t1: real)
    requires t0 < t1
    ensures Restructure([t0, t1, t0, t1]) == [t0, t1, t0, t1]
    ensures !StrictlyIncreasing(Restructure([t0, t1, t0, t1]))
  {
    RestructureIdentity([t0, t1, t0, t1]);
    assert [t0, t1, t0, t1][2] < [t0, t1, t0, t1][1];
  }

  /** `np.linspace(a, b, n)`: `a + k * step` with `step = (b - a) / (n - 1)`,
      the last point set to `b`. */
  function Linspace(a: real, b: real, n: nat): (r: seq<real>)
    requires n >= 2
    ensures |r| == n
  {
    var step := (b - a) / ((n - 1) as real);
    seq(n, k requires 0 <= k < n => if k == n - 1 then b else a + (k as real) * step)
  }

  /** The grid starts at `a`, ends at `b` and is evenly spaced. */
  lemma LinspaceSpec(a: real, b: real, n: nat)
    requires n >= 2
    ensures Linspace(a, b, n)[0] == a
    ensures Linspace(a, b, n)[n - 1] == b
    ensures forall k :: 0 <= k < n - 1 ==>
      Linspace(a, b, n)[k + 1] - Linspace(a, b, n)[k] == (b - a) / ((n - 1) as real)
  {
    var step := (b - a) / ((n - 1) as real);
    var r := Linspace(a, b, n);
    assert ((n - 1) as real) * step == b - a;
    forall k | 0 <= k < n - 1 ensures r[k + 1] - r[k] == step {
      if k + 1 == n - 1 {
        assert r[k + 1] == a + ((n - 1) as real) * step;
      }
      assert ((k + 1) as real) * step == (k as real) * step + step;
    }
  }

  function Ceil(x: real): (c: int)
    ensures x <= c as real < x + 1.0
  {
    -((-x).Floor)
  }

  /** The length `np.arange(start, stop, step)` gives: the number of k >= 0
      with `start + k * step < stop`. */
  function ArangeCount(start: real, stop: real, step: real): (c: nat)
    requires step > 0.0
  {
    if start >= stop then 0 else Ceil((stop - start) / step)
  }

  /** `np.arange(start, stop, step)`: `start + k * step` for k below
      `ArangeCount`. */
  function Arange(start: real, stop: real, step: real): (g: seq<real>)
    requires step > 0.0
    ensures |g| == ArangeCount(start, stop, step)
    ensures forall k :: 0 <= k < |g| ==> g[k] == start + (k as real) * step
  {
    seq(ArangeCount(start, stop, step), k requires 0 <= k => start + (k as real) * step)
  }

  /** The grid is exactly the points `start + k * step` below `stop`: every
      point is below `stop` and the next one would not be. It is empty when
      `start >= stop`. */
  lemma ArangeSpec(start: real, stop: real, step: real)
    requires step > 0.0
    ensures forall k :: 0 <= k < |Arange(start, stop, step)| ==> Arange(start, stop, step)[k] < stop
    ensures start + (|Arange(start, stop, step)| as real) * step >= stop
    ensures start >= stop <==> Arange(start, stop, step) == []
  {
    var g := Arange(start, stop, step);
    if start < stop {
      var x := (stop - start) / step;
      assert x * step == stop - start;
      var c := Ceil(x);
      assert c > 0;
      forall k | 0 <= k < |g| ensures g[k] < stop {
        assert (k as real) < x;
        assert (k as real) * step < x * step;
      }
      assert (c as real) * step >= x * step;
    }
  }

  /** Times `start + i * step` are strictly increasing, and the `arange`
      grid from the first to the last of them is all of them but the last. */
  lemma UniformGrid(start: real, step: real, times: seq<real>)
    requires step > 0.0 && |times| > 0
    requires forall i :: 0 <= i < |times| ==> times[i] == start + (i as real) * step
    ensures StrictlyIncreasing(times)
    ensures Arange(start, times[|times| - 1], step) == times[..|times| - 1]
  {
    var n := |times|;
    forall i | 0 < i < n ensures times[i - 1] < times[i] {
      assert times[i] - times[i - 1] == ((i as real) - ((i - 1) as real)) * step;
    }
    var end := times[n - 1];
    assert end - start == ((n - 1) as real) * step;
    if n > 1 {
      assert (end - start) / step == (n - 1) as real;
    }
    assert ArangeCount(start, end, step) == n - 1;
  }

  /** `np.interp(x, xp, fp)`: `fp[0]` left of the first knot, `fp[-1]` from
      the last knot on, and otherwise the straight line between the two knots
      around `x`. */
  function LinearInterp(xp: seq<real>, fp: seq<real>, x: real): real
    requires |xp| == |fp| > 0
  {
    if x < xp[0] then fp[0] else InterpFrom(xp, fp, x, 0)
  }

  /** `np.interp(at, xp, fp)` on a list of points. */
  function InterpAll(xp: seq<real>, fp: seq<real>, at: seq<real>): (r: seq<real>)
    requires |xp| == |fp| > 0
    ensures |r| == |at|
    ensures forall i :: 0 <= i < |at| ==> r[i] == LinearInterp(xp, fp, at[i])
  {
    seq(|at|, i requires 0 <= i < |at| => LinearInterp(xp, fp, at[i]))
  }

  /** The scan for the knot interval: at `j` we know `xp[j] <= x`. */
  function InterpFrom(xp: seq<real>, fp: seq<real>, x: real, j: nat): real
    requires |xp| == |fp| && j < |xp| && xp[j] <= x
    decreases |xp| - j
  {
    if j == |xp| - 1 then fp[j]
    else if x < xp[j + 1] then Lerp(xp[j], fp[j], xp[j + 1], fp[j + 1], x)
    else InterpFrom(xp, fp, x, j + 1)
  }

  /** The line through `(x0, y0)` and `(x1, y1)`, at `x`. */
  function Lerp(x0: real, y0: real, x1: real, y1: real, x: real): real
    requires x0 != x1
  {
    y0 + (x - x0) * (y1 - y0) / (x1 - x0)
  }

  lemma FractionWithinUnit(u: real, v: real)
    requires 0.0 <= u <= v && v > 0.0
    ensures 0.0 <= u / v <= 1.0
  {
  }

  lemma {:induction false} InterpFromWithin(xp: seq<real>, fp: seq<real>, x: real, j: nat, lo: real, hi: real)
    requires |xp| == |fp| && j < |xp| && xp[j] <= x
    requires forall k :: 0 <= k < |fp| ==> lo <= fp[k] <= hi
    ensures lo <= InterpFrom(xp, fp, x, j) <= hi
    decreases |xp| - j
  {
    if j < |xp| - 1 {
      if x < xp[j + 1] {
        LerpWithin(xp[j], fp[j], xp[j + 1], fp[j + 1], x, lo, hi);
      } else {
        InterpFromWithin(xp, fp, x, j + 1, lo, hi);
      }
    }
  }

  /** At its first point the line takes that point's value. */
  lemma LerpAtStart(x0: real, y0: real, x1: real, y1: real)
    requires x0 != x1
    ensures Lerp(x0, y0, x1, y1, x0) == y0
  {
    assert (x0 - x0) * (y1 - y0) == 0.0;
  }

  /** Between its two points the line stays within their values' range. */
  lemma LerpWithin(x0: real, y0: real, x1: real, y1: real, x: real, lo: real, hi: real)
    requires x0 <= x < x1
    requires lo <= y0 <= hi && lo <= y1 <= hi
    ensures lo <= Lerp(x0, y0, x1, y1, x) <= hi
  {
    var span := x1 - x0;
    var t := (x - x0) / span;
    FractionWithinUnit(x - x0, span);
    var r := Lerp(x0, y0, x1, y1, x);
    assert r == y0 + t * (y1 - y0);
    assert r - lo == (1.0 - t) * (y0 - lo) + t * (y1 - lo);
    assert hi - r == (1.0 - t) * (hi - y0) + t * (hi - y1);
    NonNegativeProduct(1.0 - t, y0 - lo);
    NonNegativeProduct(t, y1 - lo);
    NonNegativeProduct(1.0 - t, hi - y0);
    NonNegativeProduct(t, hi - y1);
  }

  lemma NonNegativeProduct(a: real, b: real)
    requires a >= 0.0 && b >= 0.0
    ensures a * b >= 0.0
  {
  }

  /** Linear interpolation never leaves the range of the data values. */
  lemma InterpWithin(xp: seq<real>, fp: seq<real>, x: real, lo: real, hi: real)
    requires |xp| == |fp| > 0
    requires forall k :: 0 <= k < |fp| ==> lo <= fp[k] <= hi
    ensures lo <= LinearInterp(xp, fp, x) <= hi
  {
    if x >= xp[0] {
      InterpFromWithin(xp, fp, x, 0, lo, hi);
    }
  }

  lemma {:induction false} InterpFromAtKnot(xp: seq<real>, fp: seq<real>, j: nat, k: nat)
    requires |xp| == |fp| && j <= k < |xp|
    requires StrictlyIncreasing(xp)
    ensures xp[j] <= xp[k]
    ensures InterpFrom(xp, fp, xp[k], j) == fp[k]
    decreases k - j
  {
    if j < k {
      StrictlyIncreasingPairwise(xp, j, k);
      if j + 1 < k {
        StrictlyIncreasingPairwise(xp, j + 1, k);
      }
      InterpFromAtKnot(xp, fp, j + 1, k);
    }
  }

  /** On strictly increasing knots the interpolant passes through the data. */
  lemma InterpAtKnot(xp: seq<real>, fp: seq<real>, k: nat)
    requires |xp| == |fp| && k < |xp|
    requires StrictlyIncreasing(xp)
    ensures LinearInterp(xp, fp, xp[k]) == fp[k]
  {
    if k > 0 {
      StrictlyIncreasingPairwise(xp, 0, k);
    }
    InterpFromAtKnot(xp, fp, 0, k);
  }
}
