/** A particle of the swarm (class `Individual` of SMPSO.py and OMOPSO.py,
    which are identical), its crowding value, and the two comparisons the
    archives use: relaxed Pareto dominance and exact objective equality.
    Objectives are minimised. */
module Individuals {
  import opened Options

  /** A crowding value: Python's `float("inf")` or a finite distance. */
  datatype Crowd = Inf | Fin(v: real)

  /** Python's `<` between two crowding values. */
  predicate CrowdLt(a: Crowd, b: Crowd)
  {
    a.Fin? && (b.Inf? || a.v < b.v)
  }

  predicate CrowdLe(a: Crowd, b: Crowd)
  {
    !CrowdLt(b, a)
  }

  lemma CrowdLeLt(a: Crowd, b: Crowd, c: Crowd)
    requires CrowdLe(a, b) && CrowdLt(b, c)
    ensures CrowdLt(a, c)
  {
  }

  lemma CrowdLtLe(a: Crowd, b: Crowd, c: Crowd)
    requires CrowdLt(a, b) && CrowdLe(b, c)
    ensures CrowdLt(a, c) && CrowdLe(a, c)
  {
  }

  /** `crowd_val += d`; infinity absorbs any finite addend. */
  function Plus(c: Crowd, d: real): Crowd
  {
    match c
    case Inf => Inf
    case Fin(x) => Fin(x + d)
  }

  /** A particle: position (`value`), velocity (`speed`), the personal-best
      snapshot (`best_val`, unset until initialised), `crowd_val` and the
      objective vector (empty until first evaluated). A snapshot is a value,
      so the deep copies of the source need no modelling. */
  datatype Individual = Individual(
    value: seq<real>,
    speed: seq<real>,
    best: Option<Individual>,
    crowd: Crowd,
    objectives: seq<real>)

  /** `Individual(value)`: zero velocity, no personal best, `crowd_val` 0,
      no objectives yet. */
  function NewIndividual(value: seq<real>): (r: Individual)
    ensures r.value == value && |r.speed| == |value|
    ensures forall j :: 0 <= j < |r.speed| ==> r.speed[j] == 0.0
    ensures r.best.None? && r.crowd == Fin(0.0) && r.objectives == []
  {
    Individual(value, seq(|value|, _ => 0.0), None, Fin(0.0), [])
  }

  /** The individual with its crowding value reset: two individuals agree on
      everything but `crowd_val` exactly when their `Strip`s are equal. */
  function Strip(x: Individual): Individual
  {
    x.(crowd := Fin(0.0))
  }

  /** Objective `i` of `x`; every caller guarantees that it exists, the
      default only keeps the function total. */
  function Obj(x: Individual, i: nat): real
  {
    if i < |x.objectives| then x.objectives[i] else 0.0
  }

  /** All objective vectors in `ms` have length `n`. */
  predicate SameArity(ms: seq<Individual>, n: nat)
  {
    forall k :: 0 <= k < |ms| ==> |ms[k].objectives| == n
  }

  /** `a[i] / (1 + eta)`: an objective relaxed by the factor `eta`. */
  function Relaxed(a: real, eta: real): real
    requires eta != -1.0
  {
    a / (1.0 + eta)
  }

  /** `b` is nowhere better than relaxed `a` on the first `|a|` objectives. */
  predicate NoWorse(a: seq<real>, b: seq<real>, eta: real)
    requires |a| <= |b| && eta != -1.0
  {
    forall i :: 0 <= i < |a| ==> b[i] >= Relaxed(a[i], eta)
  }

  /** `b` is somewhere strictly worse than relaxed `a`. */
  predicate SomeBetter(a: seq<real>, b: seq<real>, eta: real)
    requires |a| <= |b| && eta != -1.0
  {
    exists i :: 0 <= i < |a| && b[i] > Relaxed(a[i], eta)
  }

  /** The loop of `Individual.dominates` from index `i` on, with
      `at_least_one` carried in `found`. */
  function DomScan(a: seq<real>, b: seq<real>, eta: real, i: nat, found: bool): bool
    requires |a| <= |b| && i <= |a| && eta != -1.0
    decreases |a| - i
  {
    if i == |a| then found
    else if b[i] < Relaxed(a[i], eta) then false
    else if b[i] > Relaxed(a[i], eta) then DomScan(a, b, eta, i + 1, true)
    else DomScan(a, b, eta, i + 1, found)
  }

  lemma {:induction false} DomScanMeaning(a: seq<real>, b: seq<real>, eta: real, i: nat, found: bool)
    requires |a| <= |b| && i <= |a| && eta != -1.0
    ensures DomScan(a, b, eta, i, found) <==>
      (forall k :: i <= k < |a| ==> b[k] >= Relaxed(a[k], eta))
      && (found || exists k :: i <= k < |a| && b[k] > Relaxed(a[k], eta))
    decreases |a| - i
  {
    if i < |a| {
      if b[i] < Relaxed(a[i], eta) {
      } else if b[i] > Relaxed(a[i], eta) {
        DomScanMeaning(a, b, eta, i + 1, true);
      } else {
        DomScanMeaning(a, b, eta, i + 1, found);
      }
    }
  }

  /** `x.dominates(y, eta)`: with relaxation `eta`, `y` is nowhere better
      than `x` and somewhere worse. Only the first `len(x.objectives)`
      objectives are compared; a shorter `y` raises an index error. */
  predicate Dominates(x: Individual, y: Individual, eta: real)
    requires |x.objectives| <= |y.objectives| && eta != -1.0
  {
    DomScan(x.objectives, y.objectives, eta, 0, false)
  }

  lemma DominatesMeaning(x: Individual, y: Individual, eta: real)
    requires |x.objectives| <= |y.objectives| && eta != -1.0
    ensures Dominates(x, y, eta) <==>
      NoWorse(x.objectives, y.objectives, eta) && SomeBetter(x.objectives, y.objectives, eta)
  {
    DomScanMeaning(x.objectives, y.objectives, eta, 0, false);
  }

  /** The loop of `Individual.equal_obj` from index `i` on. */
  function EqScan(a: seq<real>, b: seq<real>, i: nat): bool
    requires |a| <= |b| && i <= |a|
    decreases |a| - i
  {
    if i == |a| then true
    else if a[i] != b[i] then false
    else EqScan(a, b, i + 1)
  }

  lemma {:induction false} EqScanMeaning(a: seq<real>, b: seq<real>, i: nat)
    requires |a| <= |b| && i <= |a|
    ensures EqScan(a, b, i) <==> a[i..] == b[i..|a|]
    decreases |a| - i
  {
    if i < |a| {
      EqScanMeaning(a, b, i + 1);
      assert a[i..] == [a[i]] + a[i + 1..];
      assert b[i..|a|] == [b[i]] + b[i + 1..|a|];
    }
  }

  /** `x.equal_obj(y)`: `x`'s objectives are a prefix of `y`'s. */
  predicate EqualObj(x: Individual, y: Individual)
    requires |x.objectives| <= |y.objectives|
  {
    EqScan(x.objectives, y.objectives, 0)
  }

  lemma EqualObjMeaning(x: Individual, y: Individual)
    requires |x.objectives| <= |y.objectives|
    ensures EqualObj(x, y) <==> x.objectives == y.objectives[..|x.objectives|]
  {
    EqScanMeaning(x.objectives, y.objectives, 0);
  }

  /** Without relaxation, dominance is the plain Pareto relation. */
  lemma DominatesAtZero(x: Individual, y: Individual)
    requires |x.objectives| <= |y.objectives|
    ensures Dominates(x, y, 0.0) <==>
      (forall i :: 0 <= i < |x.objectives| ==> y.objectives[i] >= x.objectives[i])
      && (exists i :: 0 <= i < |x.objectives| && y.objectives[i] > x.objectives[i])
  {
    DominatesMeaning(x, y, 0.0);
  }

  lemma DominatesIrreflexive(x: Individual)
    ensures !Dominates(x, x, 0.0)
  {
    DominatesAtZero(x, x);
  }

  lemma DominatesAsymmetric(x: Individual, y: Individual)
    requires |x.objectives| == |y.objectives|
    ensures Dominates(x, y, 0.0) ==> !Dominates(y, x, 0.0)
  {
    DominatesAtZero(x, y);
    DominatesAtZero(y, x);
  }

  lemma DominatesTransitive(x: Individual, y: Individual, z: Individual)
    requires |x.objectives| == |y.objectives| == |z.objectives|
    requires Dominates(x, y, 0.0) && Dominates(y, z, 0.0)
    ensures Dominates(x, z, 0.0)
  {
    DominatesAtZero(x, y);
    DominatesAtZero(y, z);
    DominatesAtZero(x, z);
    var i :| 0 <= i < |x.objectives| && y.objectives[i] > x.objectives[i];
    assert z.objectives[i] >= y.objectives[i];
  }

  /** With a positive relaxation an individual whose objectives are all
      positive dominates an exact copy of itself. */
  lemma RelaxedSelfDominance(x: Individual, eta: real)
    requires eta > 0.0 && |x.objectives| > 0
    requires forall i :: 0 <= i < |x.objectives| ==> x.objectives[i] > 0.0
    ensures Dominates(x, x, eta)
  {
    DominatesMeaning(x, x, eta);
    forall i | 0 <= i < |x.objectives|
      ensures x.objectives[i] > Relaxed(x.objectives[i], eta)
    {
      var a := x.objectives[i];
      assert a / (1.0 + eta) * (1.0 + eta) == a;
    }
    assert x.objectives[0] > Relaxed(x.objectives[0], eta);
  }

  /** Dominance looks at objectives only. */
  lemma DominatesByObjectives(x: Individual, x': Individual, y: Individual, y': Individual, eta: real)
    requires x.objectives == x'.objectives && y.objectives == y'.objectives
    requires |x.objectives| <= |y.objectives| && eta != -1.0
    ensures Dominates(x, y, eta) == Dominates(x', y', eta)
  {
    DominatesMeaning(x, y, eta);
    DominatesMeaning(x', y', eta);
  }

  lemma EqualObjReflexive(x: Individual)
    ensures EqualObj(x, x)
  {
    EqualObjMeaning(x, x);
  }

  lemma EqualObjSymmetric(x: Individual, y: Individual)
    requires |x.objectives| == |y.objectives|
    ensures EqualObj(x, y) <==> EqualObj(y, x)
  {
    EqualObjMeaning(x, y);
    EqualObjMeaning(y, x);
  }
}
