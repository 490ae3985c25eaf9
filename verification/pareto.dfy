/** The Pareto utilities of ea_utils.py: the three-way dominance
    comparison, `dominates`, the distance sentinel, `weighted_choice` and
    `split_front`. Objectives are minimised. */
module Pareto {
  import opened Options
  import Individuals

  function Min(a: nat, b: nat): nat
  {
    if a <= b then a else b
  }

  // ---------------------------------------------------------------------
  // domination_cmp and dominates

  /** `(-1, 0, 1)[(x <= y) + (x < y)]`: 1 where `x` is better, -1 where it
      is worse. */
  function Direction(x: real, y: real): int
  {
    if x < y then 1 else if x == y then 0 else -1
  }

  /** `xs` is nowhere worse than `ys` on the first `n` positions and
      somewhere better. */
  predicate Better(xs: seq<real>, ys: seq<real>, n: nat)
    requires n <= |xs| && n <= |ys|
  {
    (forall k :: 0 <= k < n ==> xs[k] <= ys[k]) && (exists k :: 0 <= k < n && xs[k] < ys[k])
  }

  /** `dir` is the direction the loop holds after the first `i` positions. */
  predicate Agrees(xs: seq<real>, ys: seq<real>, i: nat, dir: int)
    requires i <= |xs| && i <= |ys|
  {
    (dir == 0 && forall k :: 0 <= k < i ==> xs[k] == ys[k])
    || (dir == 1 && Better(xs, ys, i))
    || (dir == -1 && Better(ys, xs, i))
  }

  /** The loop of `domination_cmp` over the zipped positions from `i` on,
      `direction` held in `dir`. */
  function CmpFrom(xs: seq<real>, ys: seq<real>, i: nat, dir: int): int
    requires i <= Min(|xs|, |ys|)
    decreases Min(|xs|, |ys|) - i
  {
    if i == Min(|xs|, |ys|) then dir
    else
      var nd := Direction(xs[i], ys[i]);
      if nd == 0 then CmpFrom(xs, ys, i + 1, dir)
      else if dir != 0 && nd != dir then 0
      else CmpFrom(xs, ys, i + 1, nd)
  }

  lemma {:induction false} CmpFromMeaning(xs: seq<real>, ys: seq<real>, i: nat, dir: int)
    requires i <= Min(|xs|, |ys|) && Agrees(xs, ys, i, dir)
    ensures -1 <= CmpFrom(xs, ys, i, dir) <= 1
    ensures CmpFrom(xs, ys, i, dir) == 1 <==> Better(xs, ys, Min(|xs|, |ys|))
    ensures CmpFrom(xs, ys, i, dir) == -1 <==> Better(ys, xs, Min(|xs|, |ys|))
    decreases Min(|xs|, |ys|) - i
  {
    var m := Min(|xs|, |ys|);
    if i == m {
      if dir == 1 {
        var k :| 0 <= k < i && xs[k] < ys[k];
        assert !Better(ys, xs, m) by { assert !(ys[k] <= xs[k]); }
      } else if dir == -1 {
        var k :| 0 <= k < i && ys[k] < xs[k];
        assert !Better(xs, ys, m) by { assert !(xs[k] <= ys[k]); }
      }
    } else {
      var nd := Direction(xs[i], ys[i]);
      if nd == 0 {
        assert Agrees(xs, ys, i + 1, dir);
        CmpFromMeaning(xs, ys, i + 1, dir);
      } else if dir != 0 && nd != dir {
        if dir == 1 {
          var k :| 0 <= k < i && xs[k] < ys[k];
          assert !(ys[k] <= xs[k]) && !(xs[i] <= ys[i]);
        } else {
          var k :| 0 <= k < i && ys[k] < xs[k];
          assert !(xs[k] <= ys[k]) && !(ys[i] <= xs[i]);
        }
      } else {
        assert Agrees(xs, ys, i + 1, nd);
        CmpFromMeaning(xs, ys, i + 1, nd);
      }
    }
  }

  /** `domination_cmp(xs, ys)`, comparing only the first `min(len)`
      positions as `zip` does: 1 exactly when `xs` is nowhere worse and
      somewhere better, -1 exactly in the mirror case, 0 otherwise
      (equal vectors included). */
  function DominationCmp(xs: seq<real>, ys: seq<real>): (r: int)
    ensures -1 <= r <= 1
    ensures r == 1 <==> Better(xs, ys, Min(|xs|, |ys|))
    ensures r == -1 <==> Better(ys, xs, Min(|xs|, |ys|))
  {
    CmpFromMeaning(xs, ys, 0, 0);
    CmpFrom(xs, ys, 0, 0)
  }

  /** Swapping the arguments negates the comparison. */
  lemma DominationCmpAntisymmetric(xs: seq<real>, ys: seq<real>)
    ensures DominationCmp(xs, ys) == -DominationCmp(ys, xs)
  {
    assert Min(|xs|, |ys|) == Min(|ys|, |xs|);
  }

  /** `dominates(xs, ys)`: `domination_cmp(xs, ys) > 0`. */
  function Dominates(xs: seq<real>, ys: seq<real>): (r: bool)
    ensures r <==> Better(xs, ys, Min(|xs|, |ys|))
  {
    DominationCmp(xs, ys) > 0
  }

  lemma DominatesIrreflexive(xs: seq<real>)
    ensures !Dominates(xs, xs)
  {
  }

  lemma DominatesTransitive(xs: seq<real>, ys: seq<real>, zs: seq<real>)
    requires |xs| == |ys| == |zs|
    requires Dominates(xs, ys) && Dominates(ys, zs)
    ensures Dominates(xs, zs)
  {
    var k :| 0 <= k < |xs| && xs[k] < ys[k];
    assert xs[k] < zs[k];
  }

  /** On vectors no longer than the other, `Individual.dominates` without
      relaxation and `dominates` of ea_utils.py agree. */
  lemma DominatesMatchesIndividuals(x: Individuals.Individual, y: Individuals.Individual)
    requires |x.objectives| <= |y.objectives|
    ensures Individuals.Dominates(x, y, 0.0) <==> Dominates(x.objectives, y.objectives)
  {
    Individuals.DominatesAtZero(x, y);
  }

  // ---------------------------------------------------------------------
  // euclid_sqr_distance and the sentinel of euclid_distance

  /** The square of one coordinate difference, `(x - y) ** 2`. */
  function Square(d: real): real
  {
    d * d
  }

  function Product(a: real, b: real): real
  {
    a * b
  }

  lemma ProductPositive(a: real, b: real)
    requires a > 0.0 && b > 0.0
    ensures Product(a, b) > 0.0
  {}

  /** A square is never negative and vanishes only at zero. */
  lemma SquareSign(d: real)
    ensures Square(d) >= 0.0
    ensures Square(d) == 0.0 <==> d == 0.0
  {
    if d != 0.0 {
      var a := if d < 0.0 then -d else d;
      ProductPositive(a, a);
      assert Square(d) == Product(a, a);
    }
  }

  /** `euclid_sqr_distance`: the sum of squared differences over the zipped
      positions. */
  function SqrDistance(xs: seq<real>, ys: seq<real>): (r: real)
    ensures r >= 0.0
  {
    if |xs| == 0 || |ys| == 0 then 0.0
    else
      SquareSign(xs[0] - ys[0]);
      Square(xs[0] - ys[0]) + SqrDistance(xs[1..], ys[1..])
  }

  /** The squared distance vanishes exactly on vectors that agree on every
      zipped position. */
  lemma {:induction false} SqrDistanceZero(xs: seq<real>, ys: seq<real>)
    ensures SqrDistance(xs, ys) == 0.0 <==> forall k :: 0 <= k < Min(|xs|, |ys|) ==> xs[k] == ys[k]
    decreases |xs|
  {
    if |xs| > 0 && |ys| > 0 {
      SqrDistanceZero(xs[1..], ys[1..]);
      var d := xs[0] - ys[0];
      SquareSign(d);
      var rest := SqrDistance(xs[1..], ys[1..]);
      assert SqrDistance(xs, ys) == Square(d) + rest;
      var m := Min(|xs|, |ys|);
      assert Min(|xs[1..]|, |ys[1..]|) == m - 1;
      if d == 0.0 && rest == 0.0 {
        forall k | 0 <= k < m
          ensures xs[k] == ys[k]
        {
          if k > 0 {
            assert xs[1..][k - 1] == ys[1..][k - 1];
          }
        }
      } else {
        if d == 0.0 {
          var k :| 0 <= k < m - 1 && xs[1..][k] != ys[1..][k];
          assert xs[k + 1] != ys[k + 1];
        } else {
          assert xs[0] != ys[0];
        }
      }
    }
  }

  /** `euclid_distance`'s answer for mismatched or empty vectors. */
  const Sentinel: real := 9999999.0

  /** `euclid_distance`: the sentinel for vectors of different lengths or
      empty ones, otherwise the square root of the squared distance (the
      root itself is not modelled). */
  datatype Distance = Far(value: real) | RootOf(square: real)

  function EuclidDistance(xs: seq<real>, ys: seq<real>): (r: Distance)
    ensures r.Far? <==> |xs| != |ys| || |xs| == 0
    ensures r.Far? ==> r.value == Sentinel
    ensures r.RootOf? ==> r.square >= 0.0 && (r.square == 0.0 <==> xs == ys)
  {
    if |xs| != |ys| || |xs| == 0 then Far(Sentinel)
    else
      SqrDistanceZero(xs, ys);
      RootOf(SqrDistance(xs, ys))
  }

  // ---------------------------------------------------------------------
  // weighted_choice

  /** The sum of the first `k` weights: `upto` before choice `k`. */
  function Running(ws: seq<real>, k: nat): real
    requires k <= |ws|
  {
    if k == 0 then 0.0 else Running(ws, k - 1) + ws[k - 1]
  }

  /** `upto + w` at choice `k`: the running total including choice `k`. */
  function Reach(ws: seq<real>, k: nat): real
    requires k < |ws|
  {
    Running(ws, k) + ws[k]
  }

  function PickFrom(ws: seq<real>, r: real, k: nat): (res: Option<nat>)
    requires k <= |ws|
    ensures res.Some? ==>
      (k <= res.value < |ws| && Reach(ws, res.value) > r
       && forall j :: k <= j < res.value ==> Reach(ws, j) <= r)
    ensures res.None? ==> forall j :: k <= j < |ws| ==> Reach(ws, j) <= r
    decreases |ws| - k
  {
    if k == |ws| then None
    else if Running(ws, k) + ws[k] > r then Some(k)
    else PickFrom(ws, r, k + 1)
  }

  /** `weighted_choice` with the draw `r` from `random.uniform(0, total)`:
      the position of the first choice whose running total exceeds `r`, or
      `None` where the source reaches `assert False`. */
  function WeightedChoice(ws: seq<real>, r: real): (res: Option<nat>)
    ensures res.Some? ==>
      (res.value < |ws| && Reach(ws, res.value) > r
       && forall j :: 0 <= j < res.value ==> Reach(ws, j) <= r)
    ensures res.None? ==> forall j :: 0 <= j < |ws| ==> Reach(ws, j) <= r
  {
    PickFrom(ws, r, 0)
  }

  predicate NonNegative(ws: seq<real>)
  {
    forall k :: 0 <= k < |ws| ==> ws[k] >= 0.0
  }

  /** With non-negative weights and a draw in range, a choice of weight 0
      is never returned. */
  lemma ZeroWeightNeverChosen(ws: seq<real>, r: real)
    requires NonNegative(ws) && r >= 0.0 && WeightedChoice(ws, r).Some?
    ensures ws[WeightedChoice(ws, r).value] > 0.0
  {
    var k := WeightedChoice(ws, r).value;
    if k > 0 {
      assert Reach(ws, k - 1) <= r;
    }
  }

  lemma {:induction false} RunningMonotone(ws: seq<real>, j: nat, k: nat)
    requires NonNegative(ws) && j <= k <= |ws|
    ensures Running(ws, j) <= Running(ws, k)
    decreases k - j
  {
    if j < k {
      RunningMonotone(ws, j, k - 1);
    }
  }

  /** A draw below the total picks a choice; the draw equal to the total
      (which `random.uniform(0, total)` may return) picks none. */
  lemma ChoiceAtTotal(ws: seq<real>, r: real)
    requires NonNegative(ws)
    ensures 0.0 <= r < Running(ws, |ws|) ==> WeightedChoice(ws, r).Some?
    ensures r == Running(ws, |ws|) ==> WeightedChoice(ws, r).None?
  {
    if 0.0 <= r < Running(ws, |ws|) {
      assert |ws| > 0;
      assert Reach(ws, |ws| - 1) > r;
    }
    if r == Running(ws, |ws|) && WeightedChoice(ws, r).Some? {
      var k := WeightedChoice(ws, r).value;
      RunningMonotone(ws, k + 1, |ws|);
    }
  }

  // ---------------------------------------------------------------------
  // split_front

  type Point = (real, real)

  /** The groups concatenated, in order. */
  function Flatten(gs: seq<seq<Point>>): seq<Point>
  {
    if |gs| == 0 then [] else Flatten(gs[..|gs| - 1]) + gs[|gs| - 1]
  }

  /** Point `k` opens a new group: its x exceeds the previous x (0 before
      the first point) by more than `eps`. */
  predicate Gap(front: seq<Point>, k: nat, eps: real)
    requires k < |front|
  {
    front[k].0 - (if k == 0 then 0.0 else front[k - 1].0) > eps
  }

  /** Consecutive x values in `g` differ by at most `eps`. */
  predicate Tight(g: seq<Point>, eps: real)
  {
    forall k :: 0 < k < |g| ==> g[k].0 - g[k - 1].0 <= eps
  }

  /** The variables of `split_front`'s loop: `groups`, `group`, `prev_x`. */
  datatype Split = Split(groups: seq<seq<Point>>, group: seq<Point>, prev: real)

  /** One iteration of `split_front`'s loop on point `pt`. */
  function SplitStep(s: Split, pt: Point, eps: real): Split
  {
    if pt.0 - s.prev > eps then Split(s.groups + [s.group], [pt], pt.0)
    else Split(s.groups, s.group + [pt], pt.0)
  }

  /** The loop of `split_front` after the first `i` points. */
  function SplitLoop(front: seq<Point>, eps: real, i: nat): Split
    requires i <= |front|
  {
    if i == 0 then Split([], [], 0.0)
    else SplitStep(SplitLoop(front, eps, i - 1), front[i - 1], eps)
  }

  /** The loop state `s` after the points `seen`: they are the groups
      followed by the open group, the open group ends with the last point
      seen, and every closed group after the first is non-empty. */
  predicate Shaped(s: Split, seen: seq<Point>)
  {
    Flatten(s.groups) + s.group == seen
    && (|seen| == 0 ==> s == Split([], [], 0.0))
    && (|seen| > 0 ==> |s.group| > 0 && s.prev == seen[|seen| - 1].0 && s.group[|s.group| - 1] == seen[|seen| - 1])
    && (forall j :: 1 <= j < |s.groups| ==> |s.groups[j]| > 0)
  }

  /** The points seen so far are the groups followed by the open group;
      after the first point the open group holds the last point seen. */
  lemma {:induction false} SplitShape(front: seq<Point>, eps: real, i: nat)
    requires i <= |front|
    ensures Shaped(SplitLoop(front, eps, i), front[..i])
    decreases i
  {
    if i > 0 {
      SplitShape(front, eps, i - 1);
      ShapeStep(SplitLoop(front, eps, i - 1), front[..i - 1], front[i - 1], eps);
      PrefixSnoc(front, i);
    } else {
      assert Shaped(SplitLoop(front, eps, 0), front[..0]);
    }
  }

  /** One iteration keeps the loop state shaped. */
  lemma ShapeStep(s: Split, seen: seq<Point>, pt: Point, eps: real)
    requires Shaped(s, seen)
    ensures Shaped(SplitStep(s, pt, eps), seen + [pt])
  {
    if pt.0 - s.prev > eps {
      FlattenClose(s.groups, s.group);
      NonEmptyClose(s.groups, s.group, s.groups + [s.group], |seen| > 0);
    }
  }

  lemma PrefixSnoc<T>(xs: seq<T>, i: nat)
    requires 0 < i <= |xs|
    ensures xs[..i - 1] + [xs[i - 1]] == xs[..i]
  {
  }

  lemma FlattenClose(gs: seq<seq<Point>>, g: seq<Point>)
    ensures Flatten(gs + [g]) == Flatten(gs) + g
  {
    assert (gs + [g])[..|gs|] == gs;
  }

  /** Closing the open group keeps the later groups non-empty. */
  lemma NonEmptyClose(gs: seq<seq<Point>>, g: seq<Point>, r: seq<seq<Point>>, started: bool)
    requires r == gs + [g]
    requires forall j :: 1 <= j < |gs| ==> |gs[j]| > 0
    requires started ==> |g| > 0
    requires !started ==> gs == []
    ensures forall j :: 1 <= j < |r| ==> |r[j]| > 0
  {
  }

  /** Inside every group, closed or open, consecutive x values differ by
      at most `eps`. */
  lemma {:induction false} SplitTight(front: seq<Point>, eps: real, i: nat)
    requires i <= |front|
    ensures AllTight(SplitLoop(front, eps, i), eps)
    decreases i
  {
    if i > 0 {
      SplitTight(front, eps, i - 1);
      SplitShape(front, eps, i - 1);
      TightStep(SplitLoop(front, eps, i - 1), front[..i - 1], front[i - 1], eps);
    }
  }

  /** Every group of the loop state, closed or open, is tight. */
  predicate AllTight(s: Split, eps: real)
  {
    Tight(s.group, eps) && forall j :: 0 <= j < |s.groups| ==> Tight(s.groups[j], eps)
  }

  /** One iteration keeps every group tight. */
  lemma TightStep(s: Split, seen: seq<Point>, pt: Point, eps: real)
    requires Shaped(s, seen) && AllTight(s, eps)
    ensures AllTight(SplitStep(s, pt, eps), eps)
  {
    if pt.0 - s.prev > eps {
      TightClose(s.groups, s.group, s.groups + [s.group], eps);
      assert Tight([pt], eps);
    } else {
      TightAppend(s.group, pt, eps);
    }
  }

  /** A point at most `eps` past the last of a tight group keeps it tight. */
  lemma TightAppend(g: seq<Point>, pt: Point, eps: real)
    requires Tight(g, eps) && (|g| > 0 ==> pt.0 - g[|g| - 1].0 <= eps)
    ensures Tight(g + [pt], eps)
  {
    var r := g + [pt];
    assert forall k :: 0 <= k < |g| ==> r[k] == g[k];
  }

  /** Closing a tight group keeps every closed group tight. */
  lemma TightClose(gs: seq<seq<Point>>, g: seq<Point>, r: seq<seq<Point>>, eps: real)
    requires r == gs + [g]
    requires Tight(g, eps) && forall j :: 0 <= j < |gs| ==> Tight(gs[j], eps)
    ensures forall j :: 0 <= j < |r| ==> Tight(r[j], eps)
  {
  }

  /** A group is closed exactly when some point is a gap, and the first
      closed group is empty exactly when the first point is one. */
  lemma {:induction false} SplitGaps(front: seq<Point>, eps: real, i: nat)
    requires i <= |front|
    ensures var s := SplitLoop(front, eps, i);
      (|s.groups| > 0 <==> exists k :: 0 <= k < i && Gap(front, k, eps))
      && (|s.groups| > 0 ==> (|s.groups[0]| == 0 <==> front[0].0 > eps))
    decreases i
  {
    if i > 0 {
      SplitGaps(front, eps, i - 1);
      SplitShape(front, eps, i - 1);
      var s := SplitLoop(front, eps, i - 1);
      if front[i - 1].0 - s.prev > eps {
        assert Gap(front, i - 1, eps);
        if |s.groups| == 0 && i > 1 {
          assert !Gap(front, 0, eps);
        }
      } else {
        assert !Gap(front, i - 1, eps);
      }
    }
  }

  /** Every group of `gs` after the first starts at a gap of `front`. */
  predicate StartsAtGaps(front: seq<Point>, gs: seq<seq<Point>>, eps: real)
  {
    forall j :: 1 <= j < |gs| ==> |Flatten(gs[..j])| < |front| && Gap(front, |Flatten(gs[..j])|, eps)
  }

  /** Each group after the first, the open group included, opens at a
      point whose x exceeds the previous x by more than `eps`. */
  lemma {:induction false} SplitStarts(front: seq<Point>, eps: real, i: nat)
    requires i <= |front|
    ensures var s := SplitLoop(front, eps, i); StartsAtGaps(front, s.groups + [s.group], eps)
    decreases i
  {
    if i > 0 {
      var s := SplitLoop(front, eps, i - 1);
      var t := SplitStep(s, front[i - 1], eps);
      assert StartsAtGaps(front, t.groups + [t.group], eps) by {
        SplitStarts(front, eps, i - 1);
        SplitShape(front, eps, i - 1);
        StartsStep(s, front, i, eps);
      }
      assert SplitLoop(front, eps, i) == t;
    }
  }

  /** One iteration of the loop on point `i - 1` keeps every group start
      at a gap. */
  lemma StartsStep(s: Split, front: seq<Point>, i: nat, eps: real)
    requires 0 < i <= |front| && Shaped(s, front[..i - 1])
    requires StartsAtGaps(front, s.groups + [s.group], eps)
    ensures var t := SplitStep(s, front[i - 1], eps); StartsAtGaps(front, t.groups + [t.group], eps)
  {
    var before := s.groups + [s.group];
    var t := SplitStep(s, front[i - 1], eps);
    var after := t.groups + [t.group];
    if front[i - 1].0 - s.prev > eps {
      assert Gap(front, i - 1, eps);
      FlattenClose(s.groups, s.group);
      assert |Flatten(before)| == i - 1;
      forall j | 1 <= j < |after|
        ensures |Flatten(after[..j])| < |front| && Gap(front, |Flatten(after[..j])|, eps)
      {
        if j < |before| {
          assert after[..j] == before[..j];
        } else {
          assert after[..j] == before;
        }
      }
    } else {
      forall j | 1 <= j < |after|
        ensures |Flatten(after[..j])| < |front| && Gap(front, |Flatten(after[..j])|, eps)
      {
        assert after[..j] == before[..j];
      }
    }
  }

  /** `split_front(pareto_front, epsilon)` as written: `None` when no gap
      opens a group (the source fails on `groups[-1]`), and the last group
      appended only when it differs in value from the previous one. */
  function SplitFront(front: seq<Point>, eps: real): (r: Option<seq<seq<Point>>>)
    ensures r.Some? <==> exists k :: 0 <= k < |front| && Gap(front, k, eps)
  {
    SplitGaps(front, eps, |front|);
    var s := SplitLoop(front, eps, |front|);
    if |s.groups| == 0 then None
    else if s.groups[|s.groups| - 1] != s.group then Some(s.groups + [s.group])
    else Some(s.groups)
  }

  /** As written, the points (5, 0), (3.5, 0), (5, 0), (3.5, 0) with
      epsilon 1 lose their last two points: the closing group equals the
      previous one by value and is not appended. */
  lemma SplitFrontDropsRepeatedGroup(front: seq<Point>)
    requires front == [(5.0, 0.0), (3.5, 0.0), (5.0, 0.0), (3.5, 0.0)]
    ensures SplitFront(front, 1.0) == Some([[], [(5.0, 0.0), (3.5, 0.0)]])
    ensures Flatten(SplitFront(front, 1.0).value) != front
  {
    RepeatedGroupLoop(front);
    var gs: seq<seq<Point>> := [[], [(5.0, 0.0), (3.5, 0.0)]];
    assert gs[..1] == [[]];
    assert Flatten(gs) == [(5.0, 0.0), (3.5, 0.0)];
  }

  /** The loop's state after each of the four points of that example. */
  lemma RepeatedGroupLoop(front: seq<Point>)
    requires front == [(5.0, 0.0), (3.5, 0.0), (5.0, 0.0), (3.5, 0.0)]
    ensures SplitLoop(front, 1.0, 4) == Split([[], [(5.0, 0.0), (3.5, 0.0)]], [(5.0, 0.0), (3.5, 0.0)], 3.5)
  {
    assert SplitLoop(front, 1.0, 1) == Split([[]], [(5.0, 0.0)], 5.0);
    assert SplitLoop(front, 1.0, 2) == Split([[]], [(5.0, 0.0), (3.5, 0.0)], 3.5);
    assert SplitLoop(front, 1.0, 3) == Split([[], [(5.0, 0.0), (3.5, 0.0)]], [(5.0, 0.0)], 5.0);
  }

  /** `split_front` with the last group always appended: its groups
      concatenate back to the input, consecutive x values inside a group
      differ by at most `eps`, every group after the first is non-empty and
      starts at a gap, and the first is empty exactly when the first x
      already exceeds `eps`. */
  function SplitFrontFixed(front: seq<Point>, eps: real): (r: Option<seq<seq<Point>>>)
    ensures r.Some? <==> exists k :: 0 <= k < |front| && Gap(front, k, eps)
    ensures r.Some? ==> Flatten(r.value) == front
    ensures r.Some? ==> forall j :: 0 <= j < |r.value| ==> Tight(r.value[j], eps)
    ensures r.Some? ==> forall j :: 1 <= j < |r.value| ==> |r.value[j]| > 0
    ensures r.Some? ==> |front| > 0 && (|r.value[0]| == 0 <==> front[0].0 > eps)
    ensures r.Some? ==> forall j :: 1 <= j < |r.value| ==>
      |Flatten(r.value[..j])| < |front| && Gap(front, |Flatten(r.value[..j])|, eps)
  {
    SplitShape(front, eps, |front|);
    SplitTight(front, eps, |front|);
    SplitGaps(front, eps, |front|);
    SplitStarts(front, eps, |front|);
    var s := SplitLoop(front, eps, |front|);
    if |s.groups| == 0 then None
    else
      var gs := s.groups + [s.group];
      assert gs[..|gs| - 1] == s.groups;
      assert front[..|front|] == front;
      Some(gs)
  }

  /** On a front with strictly increasing x, as the fronts the source
      splits are, the closing group never equals the previous one, so the
      two versions agree. */
  lemma SplitFrontAgreesOnIncreasing(front: seq<Point>, eps: real)
    requires forall a, b :: 0 <= a < b < |front| ==> front[a].0 < front[b].0
    ensures SplitFront(front, eps) == SplitFrontFixed(front, eps)
  {
    SplitShape(front, eps, |front|);
    assert front[..|front|] == front;
    var s := SplitLoop(front, eps, |front|);
    if |s.groups| > 0 {
      LastGroupDiffers(front, s);
    }
  }

  /** On a strictly increasing front the last closed group never equals the
      open one: its points all lie before the open group's. */
  lemma LastGroupDiffers(front: seq<Point>, s: Split)
    requires forall a, b :: 0 <= a < b < |front| ==> front[a].0 < front[b].0
    requires Shaped(s, front) && |s.groups| > 0
    ensures s.groups[|s.groups| - 1] != s.group
  {
    var n := |s.groups|;
    var last := s.groups[n - 1];
    if |last| > 0 {
      var f := Flatten(s.groups);
      assert f == Flatten(s.groups[..n - 1]) + last;
      assert front[|f| - |last|] == last[0] && front[|f|] == s.group[0];
      assert last[0].0 < s.group[0].0;
    }
  }
}
