/** The stand-alone variation operators of drivertools.py: `old_mutate`,
    `old_crossover`, `old_crossover_triangular` and `old_crossover_beta`.
    Every random draw is a parameter indexed by the coordinate it is drawn
    for; `zip` stops at the shortest argument. */
module DriverTools {
  import opened Options
  import Kinematics

  function Min(a: nat, b: nat): nat
  {
    if a <= b then a else b
  }

  function Lower(x: real, y: real): real
  {
    if x <= y then x else y
  }

  function Upper(x: real, y: real): real
  {
    if x <= y then y else x
  }

  function Distance(x: real, y: real): real
  {
    if x <= y then y - x else x - y
  }

  /** A point a fraction `w` of the way from `x` to `y` lies between them. */
  lemma Interpolate(x: real, y: real, w: real)
    requires 0.0 <= w <= 1.0
    ensures Lower(x, y) <= x + (y - x) * w <= Upper(x, y)
  {
    if x <= y {
      Kinematics.ProductNonNegative(y - x, w);
      Kinematics.ProductNonNegative(y - x, 1.0 - w);
      assert (y - x) * w + (y - x) * (1.0 - w) == y - x;
    } else {
      Kinematics.ProductNonNegative(x - y, w);
      Kinematics.ProductNonNegative(x - y, 1.0 - w);
      assert (x - y) * w + (x - y) * (1.0 - w) == x - y;
      assert (y - x) * w == -((x - y) * w);
    }
  }

  // ---------------------------------------------------------------------
  // old_mutate

  /** `old_mutate(xs, dimensions, mutation_probability, mutation_variance)`:
      `coin(k)` is the `random.random()` draw for coordinate `k` and
      `gauss(k)` its `random.gauss(x, sigma)` draw, taken only when the coin
      succeeds. A coordinate keeps its value when the coin fails and is the
      draw clamped into its dimension otherwise. */
  function OldMutate(xs: seq<real>, dims: seq<Kinematics.Bound>, variance: seq<real>, probability: real,
                     coin: nat -> real, gauss: nat -> real): (r: seq<real>)
    ensures |r| == Min(Min(|xs|, |dims|), |variance|)
    ensures forall k :: 0 <= k < |r| && !(coin(k) < probability) ==> r[k] == xs[k]
    ensures forall k :: 0 <= k < |r| && coin(k) < probability && dims[k].lo <= dims[k].hi ==>
      dims[k].lo <= r[k] <= dims[k].hi
    ensures forall k :: 0 <= k < |r| && coin(k) < probability && dims[k].lo <= gauss(k) <= dims[k].hi ==>
      r[k] == gauss(k)
    ensures forall k :: 0 <= k < |r| && coin(k) < probability && dims[k].lo <= dims[k].hi && gauss(k) < dims[k].lo ==>
      r[k] == dims[k].lo
    ensures forall k :: 0 <= k < |r| && coin(k) < probability && gauss(k) > dims[k].hi ==>
      r[k] == dims[k].hi
  {
    var n := Min(Min(|xs|, |dims|), |variance|);
    seq(n, k requires 0 <= k < n => if coin(k) < probability then Kinematics.Clamp(gauss(k), dims[k]) else xs[k])
  }

  /** With a mutation probability of 0 (the coin draws lie in [0, 1)), the
      vector comes back unchanged up to the zipped length; with probability
      1 every coordinate is a draw inside its dimension. */
  lemma OldMutateExtremes(xs: seq<real>, dims: seq<Kinematics.Bound>, variance: seq<real>,
                          coin: nat -> real, gauss: nat -> real)
    requires forall k :: 0 <= k < |xs| ==> 0.0 <= coin(k) < 1.0
    ensures OldMutate(xs, dims, variance, 0.0, coin, gauss) == xs[..Min(Min(|xs|, |dims|), |variance|)]
    ensures var r := OldMutate(xs, dims, variance, 1.0, coin, gauss);
      forall k :: 0 <= k < |r| ==> r[k] == Kinematics.Clamp(gauss(k), dims[k])
  {
    var r := OldMutate(xs, dims, variance, 0.0, coin, gauss);
    assert forall k :: 0 <= k < |r| ==> r[k] == xs[k];
  }

  // ---------------------------------------------------------------------
  // old_crossover and old_crossover_triangular

  /** `old_crossover(xs, ys)`: `random.uniform(x, y)`, that is
      `x + (y - x) * u(k)` for the `random.random()` draw `u(k)`. Each child
      coordinate lies between its parents'. */
  function OldCrossover(xs: seq<real>, ys: seq<real>, u: nat -> real): (r: seq<real>)
    ensures |r| == Min(|xs|, |ys|)
    ensures forall k :: 0 <= k < |r| && 0.0 <= u(k) <= 1.0 ==> Lower(xs[k], ys[k]) <= r[k] <= Upper(xs[k], ys[k])
    ensures forall k :: 0 <= k < |r| && u(k) == 0.0 ==> r[k] == xs[k]
  {
    var n := Min(|xs|, |ys|);
    var r := seq(n, k requires 0 <= k < n => xs[k] + (ys[k] - xs[k]) * u(k));
    assert forall k :: 0 <= k < n && 0.0 <= u(k) <= 1.0 ==> Lower(xs[k], ys[k]) <= r[k] <= Upper(xs[k], ys[k]) by {
      forall k | 0 <= k < n && 0.0 <= u(k) <= 1.0
        ensures Lower(xs[k], ys[k]) <= r[k] <= Upper(xs[k], ys[k])
      {
        Interpolate(xs[k], ys[k], u(k));
      }
    }
    r
  }

  /** Crossing a parent with itself gives the parent back, whatever the
      draws. */
  lemma OldCrossoverSameParents(xs: seq<real>, u: nat -> real)
    ensures OldCrossover(xs, xs, u) == xs
  {
    var r := OldCrossover(xs, xs, u);
    assert forall k :: 0 <= k < |r| ==> r[k] == xs[k];
  }

  /** `old_crossover_triangular(xs, ys)`: `random.triangular(min(x, y),
      max(x, y))`, entered as the fraction `t(k)` of the way from the low end
      to the high end at which the draw falls. */
  function OldCrossoverTriangular(xs: seq<real>, ys: seq<real>, t: nat -> real): (r: seq<real>)
    ensures |r| == Min(|xs|, |ys|)
    ensures forall k :: 0 <= k < |r| && 0.0 <= t(k) <= 1.0 ==> Lower(xs[k], ys[k]) <= r[k] <= Upper(xs[k], ys[k])
  {
    var n := Min(|xs|, |ys|);
    var r := seq(n, k requires 0 <= k < n =>
      var lo := Lower(xs[k], ys[k]);
      lo + (Upper(xs[k], ys[k]) - lo) * t(k));
    assert forall k :: 0 <= k < n && 0.0 <= t(k) <= 1.0 ==> Lower(xs[k], ys[k]) <= r[k] <= Upper(xs[k], ys[k]) by {
      forall k | 0 <= k < n && 0.0 <= t(k) <= 1.0
        ensures Lower(xs[k], ys[k]) <= r[k] <= Upper(xs[k], ys[k])
      {
        Interpolate(Lower(xs[k], ys[k]), Upper(xs[k], ys[k]), t(k));
      }
    }
    r
  }

  /** The triangular child does not depend on the order of the parents. */
  lemma TriangularSymmetric(xs: seq<real>, ys: seq<real>, t: nat -> real)
    ensures OldCrossoverTriangular(xs, ys, t) == OldCrossoverTriangular(ys, xs, t)
  {
    var a := OldCrossoverTriangular(xs, ys, t);
    var b := OldCrossoverTriangular(ys, xs, t);
    assert forall k :: 0 <= k < |a| ==> Lower(xs[k], ys[k]) == Lower(ys[k], xs[k]) && Upper(xs[k], ys[k]) == Upper(ys[k], xs[k]);
    assert forall k :: 0 <= k < |a| ==> a[k] == b[k];
  }

  // ---------------------------------------------------------------------
  // old_crossover_beta

  /** The shape `v / (b - a)` of the beta draw for one coordinate is
      computable and acceptable to `betavariate`: the dimension is not
      degenerate (no division by zero) and the shape is positive (no
      `ValueError`). */
  predicate ShapeOk(d: Kinematics.Bound, v: real)
  {
    d.hi != d.lo && v / (d.hi - d.lo) > 0.0
  }

  /** `old_crossover_beta(xs, ys, dimensions, crossover_variance)`: `w(k)`
      is the `random.betavariate` draw, and the child coordinate is
      `w(k) * |x - y| + min(x, y)`. The call fails (`None`) when any zipped
      coordinate has a shape the draw cannot take. */
  function OldCrossoverBeta(xs: seq<real>, ys: seq<real>, dims: seq<Kinematics.Bound>, variance: seq<real>,
                            w: nat -> real): (r: Option<seq<real>>)
    ensures var n := Min(Min(|xs|, |ys|), Min(|dims|, |variance|));
      r.None? <==> exists k :: 0 <= k < n && !ShapeOk(dims[k], variance[k])
    ensures r.Some? ==> |r.value| == Min(Min(|xs|, |ys|), Min(|dims|, |variance|))
    ensures r.Some? ==> forall k :: 0 <= k < |r.value| && 0.0 <= w(k) <= 1.0 ==>
      Lower(xs[k], ys[k]) <= r.value[k] <= Upper(xs[k], ys[k])
  {
    var n := Min(Min(|xs|, |ys|), Min(|dims|, |variance|));
    if exists k :: 0 <= k < n && !ShapeOk(dims[k], variance[k]) then None
    else
      var r := seq(n, k requires 0 <= k < n => w(k) * Distance(xs[k], ys[k]) + Lower(xs[k], ys[k]));
      assert forall k :: 0 <= k < n && 0.0 <= w(k) <= 1.0 ==> Lower(xs[k], ys[k]) <= r[k] <= Upper(xs[k], ys[k]) by {
        forall k | 0 <= k < n && 0.0 <= w(k) <= 1.0
          ensures Lower(xs[k], ys[k]) <= r[k] <= Upper(xs[k], ys[k])
        {
          var lo := Lower(xs[k], ys[k]);
          Interpolate(lo, Upper(xs[k], ys[k]), w(k));
          assert r[k] == lo + (Upper(xs[k], ys[k]) - lo) * w(k);
        }
      }
      Some(r)
  }

  /** Where the beta draw succeeds it places the child exactly where the
      triangular operator does for the same fraction. */
  lemma BetaMatchesTriangular(xs: seq<real>, ys: seq<real>, dims: seq<Kinematics.Bound>, variance: seq<real>,
                              w: nat -> real)
    requires OldCrossoverBeta(xs, ys, dims, variance, w).Some?
    ensures var b := OldCrossoverBeta(xs, ys, dims, variance, w).value;
      var t := OldCrossoverTriangular(xs, ys, w);
      |b| <= |t| && forall k :: 0 <= k < |b| ==> b[k] == t[k]
  {
  }
}
