/** Layered non-dominated sorting: `paretofront_layers` of ea_utils.py and
    `rank` and `get_indivs_inorder` of drivertools.py. The elements are of
    any type; `f` gives each its objective vector (`fitfun_res`), and every
    vector has the same length `n`, which makes `dominates` a strict partial
    order. */
module Ranking {
  import Pareto

  /** Every element's objective vector has length `n`. */
  predicate Uniform<T(==,!new)>(s: seq<T>, f: T -> seq<real>, n: nat)
  {
    forall x :: x in s ==> |f(x)| == n
  }

  /** No element of `s` dominates the vector `v`. */
  predicate Undominated<T(==,!new)>(s: seq<T>, f: T -> seq<real>, v: seq<real>)
  {
    forall y :: y in s ==> !Pareto.Dominates(f(y), v)
  }

  // ---------------------------------------------------------------------
  // Selection in input order

  /** The elements of `s` at the positions where `keep` is `b`, in order:
      the comprehensions `[... if domtd == 0]` and `[... if domtd > 0]`. */
  function Part<T(==,!new)>(s: seq<T>, keep: seq<bool>, b: bool): (r: seq<T>)
    requires |keep| == |s|
    ensures |r| <= |s|
    ensures forall x :: x in r ==> x in s
  {
    if |s| == 0 then []
    else Part(s[..|s| - 1], keep[..|s| - 1], b) + (if keep[|s| - 1] == b then [s[|s| - 1]] else [])
  }

  lemma {:induction false} PartMembers<T(!new)>(s: seq<T>, keep: seq<bool>, b: bool)
    requires |keep| == |s|
    ensures forall x :: x in Part(s, keep, b) <==> exists k :: 0 <= k < |s| && keep[k] == b && s[k] == x
  {
    if |s| > 0 {
      var m := |s| - 1;
      PartMembers(s[..m], keep[..m], b);
      forall x
        ensures x in Part(s, keep, b) <==> exists k :: 0 <= k < |s| && keep[k] == b && s[k] == x
      {
        MemberStep(s, keep, b, x);
      }
    }
  }

  /** The inductive step of `PartMembers` for one value `x`: the last
      position adds its element exactly when its flag is `b`. */
  lemma MemberStep<T(!new)>(s: seq<T>, keep: seq<bool>, b: bool, x: T)
    requires |keep| == |s| > 0
    requires var m := |s| - 1;
      x in Part(s[..m], keep[..m], b) <==> exists k :: 0 <= k < m && keep[..m][k] == b && s[..m][k] == x
    ensures x in Part(s, keep, b) <==> exists k :: 0 <= k < |s| && keep[k] == b && s[k] == x
  {
    var m := |s| - 1;
    if x in Part(s, keep, b) {
      if x in Part(s[..m], keep[..m], b) {
        var k :| 0 <= k < m && keep[..m][k] == b && s[..m][k] == x;
        assert keep[k] == b && s[k] == x;
      } else {
        assert keep[m] == b && s[m] == x;
      }
    }
    if exists k :: 0 <= k < |s| && keep[k] == b && s[k] == x {
      var k :| 0 <= k < |s| && keep[k] == b && s[k] == x;
      if k < m {
        assert keep[..m][k] == b && s[..m][k] == x;
      }
    }
  }

  /** The two parts split `s`: together they hold every element exactly as
      often as `s` does. */
  lemma {:induction false} PartSplits<T(!new)>(s: seq<T>, keep: seq<bool>)
    requires |keep| == |s|
    ensures multiset(Part(s, keep, true)) + multiset(Part(s, keep, false)) == multiset(s)
  {
    if |s| > 0 {
      PartSplits(s[..|s| - 1], keep[..|s| - 1]);
      SplitsStep(s, keep);
    } else {
      assert Part(s, keep, true) == [] && Part(s, keep, false) == [];
    }
  }

  /** The split of `s` from the split of all but its last element. */
  lemma SplitsStep<T(!new)>(s: seq<T>, keep: seq<bool>)
    requires |keep| == |s| > 0
    requires var m := |s| - 1;
      multiset(Part(s[..m], keep[..m], true)) + multiset(Part(s[..m], keep[..m], false)) == multiset(s[..m])
    ensures multiset(Part(s, keep, true)) + multiset(Part(s, keep, false)) == multiset(s)
  {
    var m := |s| - 1;
    var pt, pf := multiset(Part(s, keep, true)), multiset(Part(s, keep, false));
    var t, f := multiset(Part(s[..m], keep[..m], true)), multiset(Part(s[..m], keep[..m], false));
    var x := multiset{s[m]};
    assert keep[m] ==> pt == t + x && pf == f by {
      PartLast(s, keep, true);
      PartLast(s, keep, false);
    }
    assert !keep[m] ==> pt == t && pf == f + x by {
      PartLast(s, keep, true);
      PartLast(s, keep, false);
    }
    assert multiset(s) == multiset(s[..m]) + x by {
      MultisetLast(s);
    }
    Combine(pt, pf, t, f, multiset(s[..m]), multiset(s), x, keep[m]);
  }

  /** One more element joins the part its flag selects. */
  lemma PartLast<T(!new)>(s: seq<T>, keep: seq<bool>, b: bool)
    requires |keep| == |s| > 0
    ensures keep[|s| - 1] == b ==>
      multiset(Part(s, keep, b)) == multiset(Part(s[..|s| - 1], keep[..|s| - 1], b)) + multiset{s[|s| - 1]}
    ensures keep[|s| - 1] != b ==>
      multiset(Part(s, keep, b)) == multiset(Part(s[..|s| - 1], keep[..|s| - 1], b))
  {
  }

  /** A non-empty sequence is its prefix plus its last element. */
  lemma MultisetLast<T>(s: seq<T>)
    requires |s| > 0
    ensures multiset(s) == multiset(s[..|s| - 1]) + multiset{s[|s| - 1]}
  {
    assert s == s[..|s| - 1] + [s[|s| - 1]];
  }

  /** Multiset bookkeeping of `SplitsStep`: the last element `x` joins the
      part flag `k` selects. */
  lemma Combine<T>(pt: multiset<T>, pf: multiset<T>, t: multiset<T>, f: multiset<T>,
                   c: multiset<T>, whole: multiset<T>, x: multiset<T>, k: bool)
    requires t + f == c && whole == c + x
    requires k ==> pt == t + x && pf == f
    requires !k ==> pt == t && pf == f + x
    ensures pt + pf == whole
  {
  }

  /** `r` is `s` read at the strictly increasing positions `idx`. */
  predicate Picks<T(==,!new)>(r: seq<T>, s: seq<T>, idx: seq<nat>)
  {
    |idx| == |r|
    && (forall i :: 0 <= i < |idx| ==> idx[i] < |s| && s[idx[i]] == r[i])
    && (forall i, j :: 0 <= i < j < |idx| ==> idx[i] < idx[j])
  }

  /** The positions where `keep` is `b`, in increasing order. */
  function Positions(keep: seq<bool>, b: bool): seq<nat>
  {
    if |keep| == 0 then []
    else Positions(keep[..|keep| - 1], b) + (if keep[|keep| - 1] == b then [|keep| - 1] else [])
  }

  /** A part keeps the input order: it is `s` read at the positions where
      `keep` is `b`. */
  lemma {:induction false} PartKeepsOrder<T(!new)>(s: seq<T>, keep: seq<bool>, b: bool)
    requires |keep| == |s|
    ensures Picks(Part(s, keep, b), s, Positions(keep, b))
  {
    if |s| > 0 {
      var m := |s| - 1;
      PartKeepsOrder(s[..m], keep[..m], b);
      var idx := Positions(keep[..m], b);
      forall i | 0 <= i < |idx|
        ensures idx[i] < m
      {
      }
    }
  }

  /** Reading at positions composes. */
  lemma PicksCompose<T(!new)>(r: seq<T>, s: seq<T>, t: seq<T>, ri: seq<nat>, si: seq<nat>) returns (idx: seq<nat>)
    requires Picks(r, s, ri) && Picks(s, t, si)
    ensures Picks(r, t, idx)
  {
    idx := seq(|ri|, i requires 0 <= i < |ri| => si[ri[i]]);
  }

  // ---------------------------------------------------------------------
  // One round of paretofront_layers

  /** `domtd` of the element at `k` after the loop over ordered pairs of
      distinct positions, counting dominating positions below `j`. */
  function DomCount<T(==,!new)>(s: seq<T>, f: T -> seq<real>, k: nat, j: nat): nat
    requires k < |s| && j <= |s|
  {
    if j == 0 then 0
    else DomCount(s, f, k, j - 1) + (if j - 1 != k && Pareto.Dominates(f(s[j - 1]), f(s[k])) then 1 else 0)
  }

  lemma {:induction false} DomCountZero<T(!new)>(s: seq<T>, f: T -> seq<real>, k: nat, j: nat)
    requires k < |s| && j <= |s|
    ensures DomCount(s, f, k, j) == 0 <==> forall i :: 0 <= i < j ==> !Pareto.Dominates(f(s[i]), f(s[k]))
    decreases j
  {
    if j > 0 {
      DomCountZero(s, f, k, j - 1);
      Pareto.DominatesIrreflexive(f(s[k]));
    }
  }

  /** Which positions nothing else dominates: `domtd == 0`. */
  function Zeros<T(==,!new)>(s: seq<T>, f: T -> seq<real>): (r: seq<bool>)
    ensures |r| == |s|
    ensures forall k :: 0 <= k < |s| ==> (r[k] <==> Undominated(s, f, f(s[k])))
  {
    var r := seq(|s|, k requires 0 <= k < |s| => DomCount(s, f, k, |s|) == 0);
    assert forall k :: 0 <= k < |s| ==> (r[k] <==> Undominated(s, f, f(s[k]))) by {
      forall k | 0 <= k < |s|
        ensures r[k] <==> Undominated(s, f, f(s[k]))
      {
        DomCountZero(s, f, k, |s|);
      }
    }
    r
  }

  /** The layer yielded: the elements no element of `s` dominates. */
  function Front<T(==,!new)>(s: seq<T>, f: T -> seq<real>): (r: seq<T>)
    ensures forall x :: x in r <==> x in s && Undominated(s, f, f(x))
  {
    PartMembers(s, Zeros(s, f), true);
    Part(s, Zeros(s, f), true)
  }

  /** What the next round works on: the elements some element of `s`
      dominates. */
  function Rest<T(==,!new)>(s: seq<T>, f: T -> seq<real>): (r: seq<T>)
    ensures forall x :: x in r <==> x in s && !Undominated(s, f, f(x))
    ensures multiset(Front(s, f)) + multiset(r) == multiset(s)
  {
    PartMembers(s, Zeros(s, f), false);
    PartSplits(s, Zeros(s, f));
    Part(s, Zeros(s, f), false)
  }

  /** Every non-empty collection of same-length vectors has an element
      none of the others dominates. */
  lemma {:induction false} Minimal<T(!new)>(c: seq<T>, f: T -> seq<real>, n: nat) returns (m: T)
    requires |c| > 0 && Uniform(c, f, n)
    ensures m in c && Undominated(c, f, f(m))
    decreases |c|
  {
    Pareto.DominatesIrreflexive(f(c[0]));
    if |c| == 1 {
      m := c[0];
    } else {
      var m' := Minimal(c[1..], f, n);
      assert forall y :: y in c ==> y == c[0] || y in c[1..];
      if Pareto.Dominates(f(c[0]), f(m')) {
        m := c[0];
        forall y | y in c
          ensures !Pareto.Dominates(f(y), f(m))
        {
          if y != c[0] && Pareto.Dominates(f(y), f(m)) {
            Pareto.DominatesTransitive(f(y), f(c[0]), f(m'));
          }
        }
      } else {
        m := m';
      }
    }
  }

  /** Each round yields a non-empty layer, so the loop terminates. */
  lemma FrontNonEmpty<T(!new)>(s: seq<T>, f: T -> seq<real>, n: nat)
    requires |s| > 0 && Uniform(s, f, n)
    ensures |Front(s, f)| > 0 && |Rest(s, f)| < |s|
  {
    var m := Minimal(s, f, n);
    assert m in Front(s, f);
    assert |multiset(Front(s, f))| + |multiset(Rest(s, f))| == |multiset(s)|;
  }

  /** Every element left for the next round is dominated by an element of
      this round's layer. */
  lemma DominatedByFront<T(!new)>(s: seq<T>, f: T -> seq<real>, n: nat, x: T)
    requires Uniform(s, f, n) && x in Rest(s, f)
    ensures exists y :: y in Front(s, f) && Pareto.Dominates(f(y), f(x))
  {
    var keep := seq(|s|, k requires 0 <= k < |s| => Pareto.Dominates(f(s[k]), f(x)));
    var c := Part(s, keep, true);
    PartMembers(s, keep, true);
    assert forall y :: y in c <==> y in s && Pareto.Dominates(f(y), f(x)) by {
      forall y | y in s && Pareto.Dominates(f(y), f(x))
        ensures y in c
      {
        var k :| 0 <= k < |s| && s[k] == y;
        assert keep[k];
      }
    }
    var z :| z in s && Pareto.Dominates(f(z), f(x));
    assert z in c;
    var m := Minimal(c, f, n);
    forall y | y in s
      ensures !Pareto.Dominates(f(y), f(m))
    {
      if Pareto.Dominates(f(y), f(m)) {
        Pareto.DominatesTransitive(f(y), f(m), f(x));
      }
    }
    assert m in Front(s, f);
  }

  // ---------------------------------------------------------------------
  // paretofront_layers

  /** The layers concatenated, in order. */
  function Concat<T>(gs: seq<seq<T>>): seq<T>
  {
    if |gs| == 0 then [] else gs[0] + Concat(gs[1..])
  }

  /** No element of `g` dominates another. */
  predicate Antichain<T(==,!new)>(g: seq<T>, f: T -> seq<real>)
  {
    forall x, y :: x in g && y in g ==> !Pareto.Dominates(f(x), f(y))
  }

  /** Every element of `lower` is dominated by some element of `upper`. */
  predicate Covers<T(==,!new)>(upper: seq<T>, lower: seq<T>, f: T -> seq<real>)
  {
    forall x :: x in lower ==> exists y :: y in upper && Pareto.Dominates(f(y), f(x))
  }

  /** `paretofront_layers(lst, fitfun_res)`: the layers yielded until
      nothing is left. They are non-empty, mutually non-dominating inside,
      each covered by the one before it, and together a permutation of the
      input. */
  function Layers<T(==,!new)>(s: seq<T>, f: T -> seq<real>, n: nat): (r: seq<seq<T>>)
    requires Uniform(s, f, n)
    ensures multiset(Concat(r)) == multiset(s)
    ensures forall i :: 0 <= i < |r| ==> |r[i]| > 0 && Antichain(r[i], f)
    ensures forall i :: 0 <= i < |r| - 1 ==> Covers(r[i], r[i + 1], f)
    decreases |s|
  {
    if |s| == 0 then []
    else
      FrontNonEmpty(s, f, n);
      var rest := Layers(Rest(s, f), f, n);
      LayerStep(s, f, n, rest);
      [Front(s, f)] + rest
  }

  /** One round of the loop: the layer it yields is a non-empty
      antichain covering the first later layer, and with the later layers
      accounts for all of `s`. */
  lemma LayerStep<T(!new)>(s: seq<T>, f: T -> seq<real>, n: nat, rest: seq<seq<T>>)
    requires Uniform(s, f, n) && |s| > 0 && multiset(Concat(rest)) == multiset(Rest(s, f))
    requires forall i :: 0 <= i < |rest| ==> |rest[i]| > 0 && Antichain(rest[i], f)
    requires forall i :: 0 <= i < |rest| - 1 ==> Covers(rest[i], rest[i + 1], f)
    ensures var r := [Front(s, f)] + rest;
      multiset(Concat(r)) == multiset(s)
      && (forall i :: 0 <= i < |r| ==> |r[i]| > 0 && Antichain(r[i], f))
      && (forall i :: 0 <= i < |r| - 1 ==> Covers(r[i], r[i + 1], f))
  {
    LayerCount(s, f, n, rest);
    LayerAntichains(s, f, n, rest);
    LayerCovers(s, f, n, rest);
  }

  lemma LayerCount<T(!new)>(s: seq<T>, f: T -> seq<real>, n: nat, rest: seq<seq<T>>)
    requires Uniform(s, f, n) && |s| > 0 && multiset(Concat(rest)) == multiset(Rest(s, f))
    ensures multiset(Concat([Front(s, f)] + rest)) == multiset(s)
  {
    assert ([Front(s, f)] + rest)[1..] == rest;
  }

  lemma LayerAntichains<T(!new)>(s: seq<T>, f: T -> seq<real>, n: nat, rest: seq<seq<T>>)
    requires Uniform(s, f, n) && |s| > 0
    requires forall i :: 0 <= i < |rest| ==> |rest[i]| > 0 && Antichain(rest[i], f)
    ensures var r := [Front(s, f)] + rest;
      forall i :: 0 <= i < |r| ==> |r[i]| > 0 && Antichain(r[i], f)
  {
    var r := [Front(s, f)] + rest;
    FrontNonEmpty(s, f, n);
    assert Antichain(Front(s, f), f);
    assert forall i :: 1 <= i < |r| ==> r[i] == rest[i - 1];
  }

  lemma LayerCovers<T(!new)>(s: seq<T>, f: T -> seq<real>, n: nat, rest: seq<seq<T>>)
    requires Uniform(s, f, n) && |s| > 0 && multiset(Concat(rest)) == multiset(Rest(s, f))
    requires forall i :: 0 <= i < |rest| - 1 ==> Covers(rest[i], rest[i + 1], f)
    ensures var r := [Front(s, f)] + rest;
      forall i :: 0 <= i < |r| - 1 ==> Covers(r[i], r[i + 1], f)
  {
    var front := Front(s, f);
    var r := [front] + rest;
    if |rest| > 0 {
      forall x | x in rest[0]
        ensures exists y :: y in front && Pareto.Dominates(f(y), f(x))
      {
        assert x in multiset(Concat(rest)) by {
          assert Concat(rest) == rest[0] + Concat(rest[1..]);
        }
        DominatedByFront(s, f, n, x);
      }
    }
    forall i | 0 <= i < |r| - 1
      ensures Covers(r[i], r[i + 1], f)
    {
      if i > 0 {
        assert r[i] == rest[i - 1] && r[i + 1] == rest[i];
      }
    }
  }

  /** Each layer is the input read at increasing positions. */
  lemma {:induction false} LayersKeepOrder<T(!new)>(s: seq<T>, f: T -> seq<real>, n: nat, i: nat) returns (idx: seq<nat>)
    requires Uniform(s, f, n) && i < |Layers(s, f, n)|
    ensures Picks(Layers(s, f, n)[i], s, idx)
    decreases |s|
  {
    LayersHead(s, f, n);
    var z := Zeros(s, f);
    var rest := Rest(s, f);
    if i == 0 {
      PartKeepsOrder(s, z, true);
      idx := Positions(z, true);
    } else {
      var inner := LayersKeepOrder(rest, f, n, i - 1);
      PartKeepsOrder(s, z, false);
      idx := PicksCompose(Layers(rest, f, n)[i - 1], rest, s, inner, Positions(z, false));
    }
  }

  /** A non-empty list of layers starts with the front of a non-empty
      input and goes on with the layers of the rest. */
  lemma LayersHead<T(!new)>(s: seq<T>, f: T -> seq<real>, n: nat)
    requires Uniform(s, f, n) && |Layers(s, f, n)| > 0
    ensures |s| > 0 && |Rest(s, f)| < |s| && Uniform(Rest(s, f), f, n)
    ensures Layers(s, f, n) == [Front(s, f)] + Layers(Rest(s, f), f, n)
  {
    FrontNonEmpty(s, f, n);
  }

  // ---------------------------------------------------------------------
  // rank and get_indivs_inorder

  /** `rank(individuals, calc_objective)`: the layers flattened. The result
      is a permutation of the input in which no element dominates one placed
      before it. */
  function Rank<T(==,!new)>(s: seq<T>, f: T -> seq<real>, n: nat): (r: seq<T>)
    requires Uniform(s, f, n)
    ensures multiset(r) == multiset(s)
    ensures Ordered(r, f)
  {
    RankOrdered(s, f, n);
    Concat(Layers(s, f, n))
  }

  /** No element of `r` dominates one placed before it. */
  predicate Ordered<T>(r: seq<T>, f: T -> seq<real>)
  {
    forall a, b :: 0 <= a < b < |r| ==> !Pareto.Dominates(f(r[b]), f(r[a]))
  }

  lemma {:induction false} RankOrdered<T(!new)>(s: seq<T>, f: T -> seq<real>, n: nat)
    requires Uniform(s, f, n)
    ensures Ordered(Concat(Layers(s, f, n)), f)
    decreases |s|
  {
    if |s| > 0 {
      FrontNonEmpty(s, f, n);
      var rest := Rest(s, f);
      RankOrdered(rest, f, n);
      var tail := Concat(Layers(rest, f, n));
      assert Concat(Layers(s, f, n)) == Front(s, f) + tail;
      forall y | y in tail
        ensures y in s
      {
        assert y in multiset(tail);
      }
      PrefixOrdered(s, f, Front(s, f), tail);
    }
  }

  /** Elements nothing in `s` dominates may be placed before any ordered
      sequence of elements of `s`. */
  lemma PrefixOrdered<T(!new)>(s: seq<T>, f: T -> seq<real>, front: seq<T>, tail: seq<T>)
    requires forall x :: x in front ==> x in s && Undominated(s, f, f(x))
    requires forall y :: y in tail ==> y in s
    requires Ordered(tail, f)
    ensures Ordered(front + tail, f)
  {
    var r := front + tail;
    forall a, b | 0 <= a < b < |r|
      ensures !Pareto.Dominates(f(r[b]), f(r[a]))
    {
      if a < |front| {
        assert r[a] in front;
        assert r[b] in s by {
          if b < |front| {
            assert r[b] in front;
          } else {
            assert r[b] == tail[b - |front|];
          }
        }
      } else {
        assert r[a] == tail[a - |front|] && r[b] == tail[b - |front|];
      }
    }
  }

  /** `calc_objective` of `get_indivs_inorder`: every fitness function
      applied to the individual, in order. */
  function Objectives(fitnesses: seq<seq<real> -> real>): seq<real> -> seq<real>
  {
    ind => seq(|fitnesses|, i requires 0 <= i < |fitnesses| => fitnesses[i](ind))
  }

  /** Dominance between the fitness vectors of two individuals, spelled
      out on the fitness values. */
  lemma ObjectivesDominate(fitnesses: seq<seq<real> -> real>, x: seq<real>, y: seq<real>)
    ensures Pareto.Dominates(Objectives(fitnesses)(x), Objectives(fitnesses)(y)) <==>
      (forall i :: 0 <= i < |fitnesses| ==> fitnesses[i](x) <= fitnesses[i](y))
      && (exists i :: 0 <= i < |fitnesses| && fitnesses[i](x) < fitnesses[i](y))
  {
    var u := Objectives(fitnesses)(x);
    var v := Objectives(fitnesses)(y);
    assert |u| == |v| == |fitnesses|;
    assert forall i :: 0 <= i < |fitnesses| ==> u[i] == fitnesses[i](x) && v[i] == fitnesses[i](y);
  }

  /** `get_indivs_inorder(fitnesses, population)`: the population ranked by
      the vectors of its fitness values. */
  function IndivsInorder(fitnesses: seq<seq<real> -> real>, population: seq<seq<real>>): (r: seq<seq<real>>)
    ensures multiset(r) == multiset(population)
    ensures forall a, b :: 0 <= a < b < |r| ==>
      !((forall i :: 0 <= i < |fitnesses| ==> fitnesses[i](r[b]) <= fitnesses[i](r[a]))
        && (exists i :: 0 <= i < |fitnesses| && fitnesses[i](r[b]) < fitnesses[i](r[a])))
  {
    var r := Rank(population, Objectives(fitnesses), |fitnesses|);
    OrderedByFitness(fitnesses, r);
    r
  }

  /** `Ordered` under `Objectives(fitnesses)`, spelled out on the fitness
      values. */
  lemma OrderedByFitness(fitnesses: seq<seq<real> -> real>, r: seq<seq<real>>)
    requires Ordered(r, Objectives(fitnesses))
    ensures forall a, b :: 0 <= a < b < |r| ==>
      !((forall i :: 0 <= i < |fitnesses| ==> fitnesses[i](r[b]) <= fitnesses[i](r[a]))
        && (exists i :: 0 <= i < |fitnesses| && fitnesses[i](r[b]) < fitnesses[i](r[a])))
  {
    forall a, b | 0 <= a < b < |r|
      ensures !((forall i :: 0 <= i < |fitnesses| ==> fitnesses[i](r[b]) <= fitnesses[i](r[a]))
        && (exists i :: 0 <= i < |fitnesses| && fitnesses[i](r[b]) < fitnesses[i](r[a])))
    {
      ObjectivesDominate(fitnesses, r[b], r[a]);
    }
  }
}
