/** Particle kinematics of SMPSO.py and OMOPSO.py: `move`, the velocity
    updates of both variants, `Mutation.__call__` with its two kinds of
    mutation amount, the mutation drivers and the `progress` value fed to
    them. Every random draw is a parameter. */
module Kinematics {
  import opened Options
  import opened Individuals
  import Leaders

  /** One entry of `dims`: the bounds `(lo, hi)` of a coordinate. */
  datatype Bound = Bound(lo: real, hi: real)

  /** `min(max(x, lo), hi)`. */
  function Clamp(x: real, b: Bound): (r: real)
    ensures b.lo <= b.hi ==> b.lo <= r <= b.hi
    ensures b.lo <= x <= b.hi ==> r == x
    ensures r == x || r == b.lo || r == b.hi
    ensures b.lo <= b.hi && x < b.lo ==> r == b.lo
    ensures x > b.hi ==> r == b.hi
  {
    var up := if x < b.lo then b.lo else x;
    if up <= b.hi then up else b.hi
  }

  // ---------------------------------------------------------------------
  // move()

  /** A coordinate and its velocity component. */
  datatype Motion = Motion(x: real, v: real)

  /** One coordinate of `move`: step by the velocity, clamp into the bounds,
      and reverse the velocity when the clamp altered the step. */
  function Step(x: real, v: real, b: Bound): (r: Motion)
    ensures b.lo <= b.hi ==> b.lo <= r.x <= b.hi
    ensures r.x == x + v ==> r.v == v
    ensures r.x != x + v ==> r.v == -v
  {
    var nx := Clamp(x + v, b);
    Motion(nx, if nx != x + v then -v else v)
  }

  /** A step that stays inside the bounds is the plain step. */
  lemma StepFree(x: real, v: real, b: Bound)
    requires b.lo <= x + v <= b.hi
    ensures Step(x, v, b) == Motion(x + v, v)
  {
  }

  /** A step past either bound stops on that bound and reverses the
      velocity. */
  lemma StepBounce(x: real, v: real, b: Bound)
    requires b.lo <= b.hi
    ensures x + v > b.hi ==> Step(x, v, b) == Motion(b.hi, -v)
    ensures x + v < b.lo ==> Step(x, v, b) == Motion(b.lo, -v)
  {
  }

  /** After bouncing off the upper bound with a velocity no larger than the
      width of the box, the next step moves back inside by that velocity. */
  lemma BounceReturns(x: real, v: real, b: Bound)
    requires b.lo <= x <= b.hi && x + v > b.hi && v <= b.hi - b.lo
    ensures Step(Step(x, v, b).x, Step(x, v, b).v, b) == Motion(b.hi - v, -v)
  {
    StepBounce(x, v, b);
    StepFree(b.hi, -v, b);
  }

  /** `move` for one particle: coordinates below `|dims|` step, the rest of
      the position and velocity stay. A coordinate whose bounds are in order
      ends inside them; a velocity component keeps its magnitude and is
      reversed exactly when the clamp altered the step. */
  function MoveParticle(p: Individual, dims: seq<Bound>): (r: Individual)
    requires |dims| <= |p.value| && |dims| <= |p.speed|
    ensures r == p.(value := r.value, speed := r.speed)
    ensures |r.value| == |p.value| && |r.speed| == |p.speed|
    ensures forall j :: 0 <= j < |dims| && dims[j].lo <= dims[j].hi ==>
      dims[j].lo <= r.value[j] <= dims[j].hi
    ensures forall j :: 0 <= j < |dims| ==>
      (r.value[j] == p.value[j] + p.speed[j] ==> r.speed[j] == p.speed[j])
      && (r.value[j] != p.value[j] + p.speed[j] ==> r.speed[j] == -p.speed[j])
    ensures forall j :: |dims| <= j < |p.value| ==> r.value[j] == p.value[j]
    ensures forall j :: |dims| <= j < |p.speed| ==> r.speed[j] == p.speed[j]
  {
    var value := seq(|p.value|, j requires 0 <= j < |p.value| =>
      if j < |dims| then Step(p.value[j], p.speed[j], dims[j]).x else p.value[j]);
    var speed := seq(|p.speed|, j requires 0 <= j < |p.speed| =>
      if j < |dims| then Step(p.value[j], p.speed[j], dims[j]).v else p.speed[j]);
    p.(value := value, speed := speed)
  }

  /** Every particle has a coordinate and a velocity component per bound. */
  predicate Fits(ps: seq<Individual>, n: nat)
  {
    forall k :: 0 <= k < |ps| ==> n <= |ps[k].value| && n <= |ps[k].speed|
  }

  /** `move()`: every particle moved; with well-ordered bounds every moved
      coordinate of every particle is inside its bounds. */
  function Move(ps: seq<Individual>, dims: seq<Bound>): (r: seq<Individual>)
    requires Fits(ps, |dims|)
    ensures |r| == |ps|
    ensures forall k :: 0 <= k < |r| ==> r[k] == MoveParticle(ps[k], dims)
  {
    seq(|ps|, k requires 0 <= k < |ps| => MoveParticle(ps[k], dims))
  }

  /** With well-ordered bounds, every moved coordinate of every particle is
      inside its bounds after `move()`. */
  lemma MoveKeepsInside(ps: seq<Individual>, dims: seq<Bound>, k: nat, j: nat)
    requires Fits(ps, |dims|) && k < |ps| && j < |dims| && dims[j].lo <= dims[j].hi
    ensures j < |Move(ps, dims)[k].value| && dims[j].lo <= Move(ps, dims)[k].value[j] <= dims[j].hi
  {
    assert Move(ps, dims)[k] == MoveParticle(ps[k], dims);
  }

  // ---------------------------------------------------------------------
  // compute_speed()

  /** The coefficients drawn once per particle: `r1`, `r2`, `C1`, `C2`. */
  datatype Coefficients = Coefficients(r1: real, r2: real, c1: real, c2: real)

  /** The unclamped update `w * v + C1 * r1 * (pbest - x) + C2 * r2 * (guide - x)`
      shared by both variants. */
  function Linear(w: real, v: real, x: real, pbest: real, guide: real, c: Coefficients): real
  {
    w * v + c.c1 * c.r1 * (pbest - x) + c.c2 * c.r2 * (guide - x)
  }

  /** SMPSO's inertia weight `W`. */
  const SmpsoInertia: real := 0.1

  /** SMPSO's velocity bound `delta = (upB - lowB) / 2` with `upB = 1` and
      `lowB = 0`. */
  const Delta: real := (1.0 - 0.0) / 2.0

  /** SMPSO's constriction coefficient for `rho = c1 + c2`; `root` is
      `sqrt(rho ** 2 - 4 * rho)`, supplied since square roots are not
      modelled. Above 4 the coefficient the source computes is negative. */
  function Constriction(c: Coefficients, root: real): (chi: real)
    requires c.c1 + c.c2 > 4.0 ==>
      root >= 0.0 && root * root == (c.c1 + c.c2) * (c.c1 + c.c2) - 4.0 * (c.c1 + c.c2)
    ensures c.c1 + c.c2 <= 4.0 ==> chi == 1.0
    ensures c.c1 + c.c2 > 4.0 ==> -1.0 < chi < 0.0
  {
    var rho := c.c1 + c.c2;
    if rho <= 4.0 then 1.0
    else
      var d := 2.0 - rho - root;
      QuotientOfNegative(d);
      2.0 / d
  }

  lemma QuotientOfNegative(d: real)
    requires d < -2.0
    ensures -1.0 < 2.0 / d < 0.0
  {
    assert (2.0 / d) * d == 2.0;
  }

  /** SMPSO's update of one velocity component as written: the constricted
      update `s` becomes `delta` when `s > delta` and `-delta` when
      `s < delta`, so every component ends at `+0.5` or `-0.5`, the
      positive one exactly when `s` reaches `delta`. */
  function SmpsoComponent(v: real, x: real, pbest: real, guide: real, c: Coefficients, chi: real): (r: real)
    ensures r == Delta || r == -Delta
    ensures r == Delta <==> chi * Linear(SmpsoInertia, v, x, pbest, guide, c) >= Delta
  {
    var s := chi * Linear(SmpsoInertia, v, x, pbest, guide, c);
    if s > Delta then Delta
    else if s < Delta then -Delta
    else s
  }

  /** As written, a particle at rest on its personal best and its guide is
      pushed with speed `-0.5`, and a small positive update `0.1` turns into
      `-0.5` as well. */
  lemma SmpsoClampFlips(c: Coefficients)
    ensures SmpsoComponent(0.0, 0.3, 0.3, 0.3, c, 1.0) == -Delta
    ensures SmpsoComponent(1.0, 0.0, 0.0, 0.0, c, 1.0) == -Delta
  {
  }

  /** The clamp the SMPSO algorithm describes: the constricted update cut
      back into `[-delta, delta]`. */
  function BoundedComponent(v: real, x: real, pbest: real, guide: real, c: Coefficients, chi: real): (r: real)
    ensures -Delta <= r <= Delta
    ensures -Delta <= chi * Linear(SmpsoInertia, v, x, pbest, guide, c) <= Delta ==>
      r == chi * Linear(SmpsoInertia, v, x, pbest, guide, c)
  {
    var s := chi * Linear(SmpsoInertia, v, x, pbest, guide, c);
    if s > Delta then Delta
    else if s < -Delta then -Delta
    else s
  }

  /** The two clamps agree exactly on the updates at or above `delta`. */
  lemma ClampsAgreeAbove(v: real, x: real, pbest: real, guide: real, c: Coefficients, chi: real)
    ensures SmpsoComponent(v, x, pbest, guide, c, chi) == BoundedComponent(v, x, pbest, guide, c, chi)
      <==> (chi * Linear(SmpsoInertia, v, x, pbest, guide, c) >= Delta
            || chi * Linear(SmpsoInertia, v, x, pbest, guide, c) <= -Delta)
  {
  }

  /** The leader sampled for a particle's tournament, and the draws of its
      update. */
  datatype SmpsoDraw = SmpsoDraw(sample: seq<nat>, c: Coefficients, root: real)

  datatype OmopsoDraw = OmopsoDraw(sample: seq<nat>, c: Coefficients, w: real)

  /** A particle can be updated against bounds `dims`: it has a personal
      best, and every vector read has a component per bound. */
  predicate Updatable(p: Individual, dims: nat)
  {
    p.best.Some? && dims <= |p.value| && dims <= |p.speed| && dims <= |p.best.value.value|
  }

  /** A tournament sample that `Leaders.Guide` accepts. */
  predicate ValidSample(leaders: seq<Individual>, sample: seq<nat>)
  {
    |leaders| > 1 ==>
      |sample| == Leaders.TournamentSize
      && (forall k :: 0 <= k < |sample| ==> sample[k] < |leaders|)
      && (forall a, b :: 0 <= a < b < |sample| ==> sample[a] != sample[b])
  }

  /** SMPSO's `compute_speed` for one particle given its guide: every
      component below `dims` ends at `+0.5` or `-0.5`, nothing else of the
      particle changes. */
  function SmpsoVelocity(p: Individual, guide: Individual, dims: nat, c: Coefficients, chi: real): (r: Individual)
    requires Updatable(p, dims) && dims <= |guide.value|
    ensures r == p.(speed := r.speed) && |r.speed| == |p.speed|
    ensures forall j :: 0 <= j < dims ==> r.speed[j] == Delta || r.speed[j] == -Delta
    ensures forall j :: dims <= j < |p.speed| ==> r.speed[j] == p.speed[j]
  {
    var speed := seq(|p.speed|, j requires 0 <= j < |p.speed| =>
      if j < dims
      then SmpsoComponent(p.speed[j], p.value[j], p.best.value.value[j], guide.value[j], c, chi)
      else p.speed[j]);
    p.(speed := speed)
  }

  /** SMPSO's `compute_speed()`: each particle's guide is chosen with its own
      sample, its coefficients give the constriction, and afterwards every
      velocity component of every particle is `+0.5` or `-0.5`. */
  function SmpsoSpeeds(ps: seq<Individual>, leaders: seq<Individual>, dims: nat, draws: seq<SmpsoDraw>): (r: seq<Individual>)
    requires |leaders| > 0 && |draws| == |ps|
    requires forall k :: 0 <= k < |leaders| ==> dims <= |leaders[k].value|
    requires forall k :: 0 <= k < |ps| ==> Updatable(ps[k], dims)
    requires forall k :: 0 <= k < |draws| ==> ValidSample(leaders, draws[k].sample)
    requires forall k :: 0 <= k < |draws| ==> RootOk(draws[k])
    ensures |r| == |ps|
    ensures forall k :: 0 <= k < |r| ==> r[k] == ps[k].(speed := r[k].speed)
    ensures forall k, j :: 0 <= k < |r| && 0 <= j < dims ==>
      j < |r[k].speed| && (r[k].speed[j] == Delta || r[k].speed[j] == -Delta)
  {
    var r := seq(|ps|, k requires 0 <= k < |ps| => SmpsoParticle(ps[k], leaders, dims, draws[k]));
    assert forall k :: 0 <= k < |r| ==>
      Updatable(ps[k], dims) && ValidSample(leaders, draws[k].sample) && RootOk(draws[k])
      && r[k] == SmpsoParticle(ps[k], leaders, dims, draws[k]);
    r
  }

  /** One particle of SMPSO's `compute_speed()`, guided by a leader. */
  function SmpsoParticle(p: Individual, leaders: seq<Individual>, dims: nat, d: SmpsoDraw): (r: Individual)
    requires |leaders| > 0 && ValidSample(leaders, d.sample) && Updatable(p, dims) && RootOk(d)
    requires forall k :: 0 <= k < |leaders| ==> dims <= |leaders[k].value|
    ensures r == p.(speed := r.speed) && |r.speed| == |p.speed|
    ensures forall j :: 0 <= j < dims ==> r.speed[j] == Delta || r.speed[j] == -Delta
  {
    var g := Leaders.Guide(leaders, d.sample);
    SmpsoVelocity(p, g, dims, d.c, Constriction(d.c, d.root))
  }

  /** `root` is the square root the constriction needs. */
  predicate RootOk(d: SmpsoDraw)
  {
    d.c.c1 + d.c.c2 > 4.0 ==>
      d.root >= 0.0 && d.root * d.root == (d.c.c1 + d.c.c2) * (d.c.c1 + d.c.c2) - 4.0 * (d.c.c1 + d.c.c2)
  }

  /** OMOPSO's `compute_speed` for one particle given its guide: the plain
      linear update, no constriction and no clamp. */
  function OmopsoVelocity(p: Individual, guide: Individual, dims: nat, c: Coefficients, w: real): (r: Individual)
    requires Updatable(p, dims) && dims <= |guide.value|
    ensures r == p.(speed := r.speed) && |r.speed| == |p.speed|
    ensures forall j :: dims <= j < |p.speed| ==> r.speed[j] == p.speed[j]
  {
    var speed := seq(|p.speed|, j requires 0 <= j < |p.speed| =>
      if j < dims then Linear(w, p.speed[j], p.value[j], p.best.value.value[j], guide.value[j], c)
      else p.speed[j]);
    p.(speed := speed)
  }

  /** A particle sitting on its personal best and on its guide keeps its
      direction, the speed scaled by `W`; with `W` drawn from `[0.1, 0.5]`
      the speed at least halves. */
  lemma OmopsoAtRest(p: Individual, guide: Individual, dims: nat, c: Coefficients, w: real)
    requires Updatable(p, dims) && dims <= |guide.value|
    requires forall j :: 0 <= j < dims ==> p.best.value.value[j] == p.value[j] && guide.value[j] == p.value[j]
    ensures forall j :: 0 <= j < dims ==> OmopsoVelocity(p, guide, dims, c, w).speed[j] == w * p.speed[j]
    ensures 0.1 <= w <= 0.5 ==> forall j :: 0 <= j < dims ==>
      Abs(OmopsoVelocity(p, guide, dims, c, w).speed[j]) <= Abs(p.speed[j]) / 2.0
  {
    var r := OmopsoVelocity(p, guide, dims, c, w);
    forall j | 0 <= j < dims
      ensures r.speed[j] == w * p.speed[j]
    {
      assert r.speed[j] == Linear(w, p.speed[j], p.value[j], p.best.value.value[j], guide.value[j], c);
    }
    if 0.1 <= w <= 0.5 {
      forall j | 0 <= j < dims
        ensures Abs(r.speed[j]) <= Abs(p.speed[j]) / 2.0
      {
        ScaledAbs(w, p.speed[j]);
      }
    }
  }

  function Abs(x: real): real
  {
    if x < 0.0 then -x else x
  }

  lemma ScaledAbs(w: real, v: real)
    requires 0.0 <= w <= 0.5
    ensures Abs(w * v) <= Abs(v) / 2.0
  {
    if v < 0.0 {
      assert w * v >= 0.5 * v;
    } else {
      assert w * v <= 0.5 * v;
    }
  }

  /** OMOPSO does not bound the velocity: from rest, a particle one unit
      away from both its personal best and its guide gets speed 2 with
      `C1 = C2 = 2`, `r1 = r2 = 0.5`. */
  lemma OmopsoUnbounded(p: Individual, guide: Individual)
    requires p.value == [0.0] && p.speed == [0.0] && p.best.Some? && p.best.value.value == [1.0]
    requires guide.value == [1.0]
    ensures OmopsoVelocity(p, guide, 1, Coefficients(0.5, 0.5, 2.0, 2.0), 0.3).speed == [2.0]
  {
  }

  /** `q` is particle `p` after the linear OMOPSO update against one of the
      leaders. */
  predicate GuidedBy(q: Individual, p: Individual, leaders: seq<Individual>, dims: nat, d: OmopsoDraw)
    requires Updatable(p, dims)
    requires forall k :: 0 <= k < |leaders| ==> dims <= |leaders[k].value|
  {
    exists i :: 0 <= i < |leaders| && q == OmopsoVelocity(p, leaders[i], dims, d.c, d.w)
  }

  /** OMOPSO's `compute_speed()`: each particle updated linearly against the
      guide its own sample selects; positions and everything else stay. */
  function OmopsoSpeeds(ps: seq<Individual>, leaders: seq<Individual>, dims: nat, draws: seq<OmopsoDraw>): (r: seq<Individual>)
    requires |leaders| > 0 && |draws| == |ps|
    requires forall k :: 0 <= k < |leaders| ==> dims <= |leaders[k].value|
    requires forall k :: 0 <= k < |ps| ==> Updatable(ps[k], dims)
    requires forall k :: 0 <= k < |draws| ==> ValidSample(leaders, draws[k].sample)
    ensures |r| == |ps|
    ensures forall k :: 0 <= k < |r| ==> r[k] == ps[k].(speed := r[k].speed)
    ensures forall k :: 0 <= k < |r| ==> GuidedBy(r[k], ps[k], leaders, dims, draws[k])
  {
    var r := seq(|ps|, k requires 0 <= k < |ps| => OmopsoParticle(ps[k], leaders, dims, draws[k]));
    assert forall k :: 0 <= k < |r| ==> r[k] == OmopsoParticle(ps[k], leaders, dims, draws[k]);
    r
  }

  /** One particle of OMOPSO's `compute_speed()`, guided by a leader. */
  function OmopsoParticle(p: Individual, leaders: seq<Individual>, dims: nat, d: OmopsoDraw): (r: Individual)
    requires |leaders| > 0 && ValidSample(leaders, d.sample) && Updatable(p, dims)
    requires forall k :: 0 <= k < |leaders| ==> dims <= |leaders[k].value|
    ensures r == p.(speed := r.speed)
    ensures GuidedBy(r, p, leaders, dims, d)
  {
    var g := Leaders.Guide(leaders, d.sample);
    assert exists i :: 0 <= i < |leaders| && leaders[i] == g;
    OmopsoVelocity(p, g, dims, d.c, d.w)
  }

  // ---------------------------------------------------------------------
  // Mutation

  /** `Mutation.__call__` on one coordinate: `coin` is the draw compared
      with the mutation probability, `amount` what `do_mutation` returned. A
      coordinate the coin spares is untouched; a mutated one moves by
      `amount` clamped into its bounds. */
  function MutateCoord(x: real, b: Bound, coin: bool, amount: real): (r: real)
    ensures !coin ==> r == x
    ensures coin && b.lo <= b.hi ==> b.lo <= r <= b.hi
    ensures coin && b.lo <= x + amount <= b.hi ==> r == x + amount
    ensures coin && b.lo <= b.hi && x + amount < b.lo ==> r == b.lo
    ensures coin && x + amount > b.hi ==> r == b.hi
  {
    if coin then Clamp(x + amount, b) else x
  }

  /** The draws of one `Mutation.__call__`: per coordinate the draw compared
      with the probability, and the amount `do_mutation` would return. */
  datatype MutationDraw = MutationDraw(coins: seq<real>, amounts: seq<real>)

  predicate DrawFits(d: MutationDraw, n: nat)
  {
    |d.coins| == n && |d.amounts| == n
  }

  /** `Mutation.__call__(p)`: coordinate `j` mutates when its draw is below
      `probability`. Only the position changes; spared coordinates keep
      their value, mutated ones end inside well-ordered bounds. */
  function Mutate(p: Individual, dims: seq<Bound>, probability: real, d: MutationDraw): (r: Individual)
    requires |dims| <= |p.value| && DrawFits(d, |dims|)
    ensures r == p.(value := r.value) && |r.value| == |p.value|
    ensures forall j :: 0 <= j < |dims| && d.coins[j] >= probability ==> r.value[j] == p.value[j]
    ensures forall j :: 0 <= j < |dims| && d.coins[j] < probability && dims[j].lo <= dims[j].hi ==>
      dims[j].lo <= r.value[j] <= dims[j].hi
    ensures forall j :: 0 <= j < |dims| && d.coins[j] < probability ==>
      r.value[j] == Clamp(p.value[j] + d.amounts[j], dims[j])
    ensures forall j :: |dims| <= j < |p.value| ==> r.value[j] == p.value[j]
  {
    var value := seq(|p.value|, j requires 0 <= j < |p.value| =>
      if j < |dims| then MutateCoord(p.value[j], dims[j], d.coins[j] < probability, d.amounts[j])
      else p.value[j]);
    p.(value := value)
  }

  /** `UniformMutation.do_mutation`: `(u - 0.5) * perturbation` for a draw
      `u` in `[0, 1)`, at most half the perturbation either way. */
  function UniformAmount(u: real, perturbation: real): (r: real)
    ensures 0.0 <= u <= 1.0 && perturbation >= 0.0 ==> -perturbation / 2.0 <= r <= perturbation / 2.0
    ensures perturbation == 0.0 ==> r == 0.0
  {
    if 0.0 <= u <= 1.0 && perturbation >= 0.0 then
      HalfWidth(u - 0.5, perturbation);
      (u - 0.5) * perturbation
    else (u - 0.5) * perturbation
  }

  lemma HalfWidth(a: real, p: real)
    requires -0.5 <= a <= 0.5 && p >= 0.0
    ensures -p / 2.0 <= a * p <= p / 2.0
  {
    if a >= 0.0 {
      assert a * p <= 0.5 * p;
    } else {
      assert a * p >= -0.5 * p;
    }
  }

  /** `NonUniformMutation.delta(y)` with `shrink` standing for
      `rand ** ((1 - progress) ** perturbation)`, which lies in `[0, 1]`. */
  function NonUniformDelta(y: real, shrink: real): real
  {
    y * (1.0 - shrink)
  }

  /** `NonUniformMutation.do_mutation`: towards the upper bound when the
      draw `side` is below 0.5, towards the lower one otherwise. From inside
      the bounds the move never leaves them, so the clamp does not act. */
  function NonUniformAmount(x: real, b: Bound, side: real, shrink: real): (r: real)
    requires b.lo <= x <= b.hi && 0.0 <= shrink <= 1.0
    ensures b.lo <= x + r <= b.hi
    ensures side < 0.5 ==> r >= 0.0
    ensures side >= 0.5 ==> r <= 0.0
  {
    ShrinksUp(b.hi - x, shrink);
    ShrinksDown(b.lo - x, shrink);
    if side < 0.5 then NonUniformDelta(b.hi - x, shrink)
    else NonUniformDelta(b.lo - x, shrink)
  }

  /** The product of two non-negative reals is non-negative. */
  lemma ProductNonNegative(d: real, w: real)
    requires d >= 0.0 && w >= 0.0
    ensures d * w >= 0.0
  {
  }

  lemma ShrinksUp(y: real, shrink: real)
    requires y >= 0.0 && 0.0 <= shrink <= 1.0
    ensures 0.0 <= NonUniformDelta(y, shrink) <= y
  {
    ProductNonNegative(y, shrink);
    ProductNonNegative(y, 1.0 - shrink);
    assert y * (1.0 - shrink) + y * shrink == y;
  }

  lemma ShrinksDown(y: real, shrink: real)
    requires y <= 0.0 && 0.0 <= shrink <= 1.0
    ensures y <= NonUniformDelta(y, shrink) <= 0.0
  {
    ProductNonNegative(-y, shrink);
    ProductNonNegative(-y, 1.0 - shrink);
    assert (-y) * (1.0 - shrink) + (-y) * shrink == -y;
    assert y * (1.0 - shrink) == -((-y) * (1.0 - shrink));
  }

  /** With perturbation 0 a uniform mutation leaves every in-bounds
      position as it was, whatever the coins. */
  lemma UniformZeroPerturbation(p: Individual, dims: seq<Bound>, probability: real, coins: seq<real>, us: seq<real>)
    requires |dims| <= |p.value| && |coins| == |dims| == |us|
    requires forall j :: 0 <= j < |dims| ==> dims[j].lo <= p.value[j] <= dims[j].hi
    ensures Mutate(p, dims, probability,
      MutationDraw(coins, seq(|us|, j requires 0 <= j < |us| => UniformAmount(us[j], 0.0)))) == p
  {
    var amounts := seq(|us|, j requires 0 <= j < |us| => UniformAmount(us[j], 0.0));
    var r := Mutate(p, dims, probability, MutationDraw(coins, amounts));
    forall j | 0 <= j < |p.value|
      ensures r.value[j] == p.value[j]
    {
      if j < |dims| {
        assert amounts[j] == 0.0;
        assert r.value[j] == MutateCoord(p.value[j], dims[j], coins[j] < probability, amounts[j]);
      }
    }
    assert r.value == p.value;
  }

  // ---------------------------------------------------------------------
  // The mutation drivers and the progress value

  /** `min(1.0, cost / max_budget) if max_budget else None`: absent without a
      positive budget, otherwise the spent fraction capped at 1, reaching 1
      exactly when the budget is spent. */
  function Progress(cost: int, budget: Option<real>): (r: Option<real>)
    ensures r.Some? <==> budget.Some? && budget.value != 0.0
    ensures budget.Some? && budget.value > 0.0 && cost >= 0 ==> 0.0 <= r.value <= 1.0
    ensures budget.Some? && budget.value > 0.0 ==> (r.value == 1.0 <==> cost as real >= budget.value)
  {
    if budget.None? || budget.value == 0.0 then None
    else
      var f := cost as real / budget.value;
      Some(if f < 1.0 then f else 1.0)
  }

  /** `int(pop_len / 3)`: the size of each of the two mutated thirds. */
  function Third(n: nat): (r: nat)
    ensures 3 * r <= n < 3 * r + 3
  {
    n / 3
  }

  /** `smpso_mutation` / `mopso_mutation` as written: the `map` objects
      built over the two thirds are never consumed, so no particle is
      mutated. */
  function LazyMutationDriver(ps: seq<Individual>, progress: Option<real>): seq<Individual>
  {
    ps
  }

  /** Whether `if evolution_progress:` takes its branch. */
  predicate Truthy(progress: Option<real>)
  {
    progress.Some? && progress.value != 0.0
  }

  /** The drivers as their authors meant them: the first third undergoes
      uniform mutation (`uniform[k]` its draws), the second third
      non-uniform mutation (`nonUniform[k]`) when the progress is truthy,
      the rest stays. Only positions change, each mutated coordinate ends
      inside well-ordered bounds. */
  function EagerMutationDriver(ps: seq<Individual>, dims: seq<Bound>, probability: real, progress: Option<real>,
                               uniform: seq<MutationDraw>, nonUniform: seq<MutationDraw>): (r: seq<Individual>)
    requires |uniform| == |ps| == |nonUniform|
    requires forall k :: 0 <= k < |ps| ==> |dims| <= |ps[k].value|
    requires forall k :: 0 <= k < |ps| ==> DrawFits(uniform[k], |dims|) && DrawFits(nonUniform[k], |dims|)
    ensures |r| == |ps|
    ensures forall k :: 0 <= k < |r| ==> r[k] == ps[k].(value := r[k].value)
    ensures forall k :: 0 <= k < |r| && (k >= 2 * Third(|ps|) || (k >= Third(|ps|) && !Truthy(progress))) ==>
      r[k] == ps[k]
    ensures forall k :: 0 <= k < Third(|ps|) ==> r[k] == Mutate(ps[k], dims, probability, uniform[k])
    ensures Truthy(progress) ==>
      forall k :: Third(|ps|) <= k < 2 * Third(|ps|) ==> r[k] == Mutate(ps[k], dims, probability, nonUniform[k])
  {
    var part := Third(|ps|);
    seq(|ps|, k requires 0 <= k < |ps| =>
      if k < part then Mutate(ps[k], dims, probability, uniform[k])
      else if k < 2 * part && Truthy(progress) then Mutate(ps[k], dims, probability, nonUniform[k])
      else ps[k])
  }

  /** The driver as written differs from the intended one: with three
      particles the first one, at 0.5 in `[0, 1]`, would move to 0.6 under
      a certain mutation of amount 0.1, but stays where it is. */
  lemma LazyDriverSkipsMutation(ps: seq<Individual>, dims: seq<Bound>, draws: seq<MutationDraw>)
    requires ps == [NewIndividual([0.5]), NewIndividual([0.5]), NewIndividual([0.5])]
    requires dims == [Bound(0.0, 1.0)]
    requires draws == [MutationDraw([0.0], [0.1]), MutationDraw([0.0], [0.1]), MutationDraw([0.0], [0.1])]
    ensures LazyMutationDriver(ps, None)[0].value == [0.5]
    ensures EagerMutationDriver(ps, dims, 0.05, None, draws, draws)[0].value == [0.6]
  {
    var r := EagerMutationDriver(ps, dims, 0.05, None, draws, draws);
    assert r[0] == Mutate(ps[0], dims, 0.05, draws[0]);
    assert r[0].value[0] == MutateCoord(0.5, dims[0], true, 0.1);
  }
}
