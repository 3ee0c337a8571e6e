/** The numerical collaborators of the crash-repair engines, kept abstract:
    PCHIP and natural cubic-spline interpolation, `tanh`, the Savitzky–Golay
    and Gaussian filters and the outlier threshold test are fields of a
    `Kernels` value that every engine takes as a parameter. Only the facts the
    engines rely on are assumed of them (`Kernels.Valid`). On top of them sit
    the two pieces of arithmetic the engines do themselves: `smooth_dampen`
    and the choice of the smoothing window. */
module Numerics {
  import opened Table

  datatype Kernels = Kernels(
    pchip: (seq<real>, seq<real>, real) -> real,     // PchipInterpolator(xs, ys)(x)
    spline: (seq<real>, seq<real>, real) -> real,    // CubicSpline(xs, ys, bc_type='natural')(x)
    tanh: real -> real,
    savgol: (seq<real>, nat) -> seq<real>,           // savgol_filter(v, window, 3)
    gaussian: seq<real> -> seq<real>,                // gaussian_filter1d(v, sigma=2)
    aboveThreshold: seq<real> -> seq<bool>)          // v > mean(v) + 1.5 * std(v)
  {
    /** Both interpolants pass through their knots when the abscissa is
        strictly increasing, `tanh` maps `[0, inf)` into `[0, 1)`, and the
        filters and the threshold test are elementwise in length. */
    ghost predicate Valid() {
      && (forall xs: seq<real>, ys: seq<real>, k: int {:trigger pchip(xs, ys, xs[k])} ::
            StrictlyIncreasing(xs) && |xs| == |ys| && 0 <= k < |xs| ==> pchip(xs, ys, xs[k]) == ys[k])
      && (forall xs: seq<real>, ys: seq<real>, k: int {:trigger spline(xs, ys, xs[k])} ::
            StrictlyIncreasing(xs) && |xs| == |ys| && 0 <= k < |xs| ==> spline(xs, ys, xs[k]) == ys[k])
      && (forall x: real :: 0.0 <= x ==> 0.0 <= tanh(x) < 1.0)
      && (forall v: seq<real>, w: nat :: |savgol(v, w)| == |v|)
      && (forall v: seq<real> :: |gaussian(v)| == |v|)
      && (forall v: seq<real> :: |aboveThreshold(v)| == |v|)
    }
  }

  function Sign(x: real): (s: real)
    ensures s == 1.0 || s == -1.0 || s == 0.0
    ensures s * x == Abs(x)
  {
    if x > 0.0 then 1.0 else if x < 0.0 then -1.0 else 0.0
  }

  /** `smooth_dampen(v, target, 1.5)`: `sign(v) * tanh(|v| / target / 1.5) *
      target`. A zero target is read as a zero result. */
  function SmoothDampen(k: Kernels, v: real, target: real): real
  {
    if target == 0.0 then 0.0
    else Sign(v) * (k.tanh((Abs(v) / target) / 1.5) * target)
  }

  /** With a positive target the dampened value keeps the sign of `v` (zero
      stays zero) and lies strictly inside `(-target, target)`. */
  lemma DampenWithinTarget(k: Kernels, v: real, target: real)
    requires k.Valid() && target > 0.0
    ensures Abs(SmoothDampen(k, v, target)) < target
    ensures v > 0.0 ==> SmoothDampen(k, v, target) >= 0.0
    ensures v < 0.0 ==> SmoothDampen(k, v, target) <= 0.0
    ensures v == 0.0 ==> SmoothDampen(k, v, target) == 0.0
  {
    var x := (Abs(v) / target) / 1.5;
    assert x >= 0.0;
    var t := k.tanh(x);
    assert 0.0 <= t < 1.0;
    var m := t * target;
    assert 0.0 <= m < target;
    assert SmoothDampen(k, v, target) == Sign(v) * m;
  }

  function DampenAll(k: Kernels, vs: seq<real>, target: real): (r: seq<real>)
    ensures |r| == |vs|
    ensures forall i :: 0 <= i < |vs| ==> r[i] == SmoothDampen(k, vs[i], target)
  {
    seq(|vs|, i requires 0 <= i < |vs| => SmoothDampen(k, vs[i], target))
  }

  /** `min(15, len // 2 * 2 - 1)`: the largest odd number below the length,
      capped at 15. */
  function SmoothWindow(n: nat): (w: int)
    ensures w % 2 == 1 && w <= 15
    ensures w > 3 <==> n >= 6
    ensures w > 3 ==> w <= n
  {
    Min(15, n / 2 * 2 - 1)
  }

  /** The optional Savitzky–Golay pass: it runs only when the window exceeds
      3, the filter's polynomial order. */
  function Smooth(k: Kernels, vs: seq<real>): (r: seq<real>)
    ensures k.Valid() ==> |r| == |vs|
    ensures |vs| < 6 ==> r == vs
  {
    var w := SmoothWindow(|vs|);
    if w > 3 then k.savgol(vs, w) else vs
  }

  /** `interpolant(times)`: an interpolant evaluated on a list of points. */
  function EvalAt(f: (seq<real>, seq<real>, real) -> real, xs: seq<real>, ys: seq<real>, at: seq<real>): (r: seq<real>)
    ensures |r| == |at|
    ensures forall i :: 0 <= i < |at| ==> r[i] == f(xs, ys, at[i])
  {
    seq(|at|, i requires 0 <= i < |at| => f(xs, ys, at[i]))
  }

  /** Evaluated at its own strictly increasing knots, a valid interpolant
      gives back the data. */
  lemma EvalAtKnots(f: (seq<real>, seq<real>, real) -> real, xs: seq<real>, ys: seq<real>)
    requires StrictlyIncreasing(xs) && |xs| == |ys|
    requires forall k :: 0 <= k < |xs| ==> f(xs, ys, xs[k]) == ys[k]
    ensures EvalAt(f, xs, ys, xs) == ys
  {
    var r := EvalAt(f, xs, ys, xs);
    forall i | 0 <= i < |xs| ensures r[i] == ys[i] {
      assert r[i] == f(xs, ys, xs[i]);
    }
  }
}
