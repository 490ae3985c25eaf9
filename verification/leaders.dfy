/** `LeaderArchive` of SMPSO.py / OMOPSO.py (the bounded archive of
    leaders: `add`, `prune`, `crowding`) and `CrowdingTournament`, which
    picks a guide among the leaders. */
module Leaders {
  import opened Options
  import opened Individuals
  import opened ObjectiveSort
  import Archives

  /** `CrowdingTournament()` samples two leaders. */
  const TournamentSize: nat := 2

  /** Every member's `crowd_val` set to 0. */
  function Reset(ms: seq<Individual>): (r: seq<Individual>)
    ensures |r| == |ms| && Strips(r) == Strips(ms)
    ensures forall k :: 0 <= k < |r| ==> r[k].crowd == Fin(0.0)
  {
    seq(|ms|, k requires 0 <= k < |ms| => ms[k].(crowd := Fin(0.0)))
  }

  /** The value `crowd_val` of interior position `j` of `u` (sorted by
      objective `i`) gets: the gap to its predecessor normalised by the
      spread `obj_max - obj_min` of the list, added to what it had; or
      infinity when the spread is zero. */
  function Interior(u: seq<Individual>, i: nat, j: nat): Crowd
    requires 0 < j < |u|
  {
    var lo := Obj(u[0], i);
    var hi := Obj(u[|u| - 1], i);
    if hi - lo > 0.0 then Plus(u[j].crowd, (Obj(u[j], i) - Obj(u[j - 1], i)) / (hi - lo))
    else Inf
  }

  /** Both ends of the sorted list `t` get infinity. */
  function Ends(t: seq<Individual>): (r: seq<Individual>)
    requires |t| > 0
    ensures |r| == |t|
  {
    t[0 := t[0].(crowd := Inf)][|t| - 1 := t[|t| - 1].(crowd := Inf)]
  }

  lemma EndsFacts(t: seq<Individual>)
    requires |t| > 0
    ensures Strips(Ends(t)) == Strips(t)
    ensures Ends(t)[0].crowd == Inf && Ends(t)[|t| - 1].crowd == Inf
    ensures forall k :: 0 < k < |t| - 1 ==> Ends(t)[k] == t[k]
    ensures forall k :: 0 <= k < |t| ==> Ends(t)[k].objectives == t[k].objectives
  {
    assert forall k :: 0 <= k < |t| ==> Strip(Ends(t)[k]) == Strip(t[k]);
  }

  /** The body of the outer loop of `crowding()` on the list `u` already
      sorted by objective `i`, from step `j` on: step 0 gives both ends
      infinity, step `j` > 0 is iteration `j` of the inner loop
      `for j in range(1, archive_len - 1)`. Only `crowd_val` changes, so the
      extremes and the predecessor each step reads keep their objectives. */
  function Steps(u: seq<Individual>, i: nat, j: nat): (r: seq<Individual>)
    ensures |r| == |u|
    decreases |u| - j
  {
    if j == 0 then
      if |u| == 0 then u else Steps(Ends(u), i, 1)
    else if j + 1 >= |u| then u
    else Steps(u[j := u[j].(crowd := Interior(u, i, j))], i, j + 1)
  }

  /** The inner loop changes `crowd_val` at interior positions from `j` on
      and nothing else; each of them gets `Interior` of its original value. */
  lemma {:induction false} StepsEffect(u: seq<Individual>, i: nat, j: nat)
    requires 0 < j
    ensures Strips(Steps(u, i, j)) == Strips(u)
    ensures forall k :: 0 <= k < |u| && (k < j || k == |u| - 1) ==> Steps(u, i, j)[k] == u[k]
    ensures forall k :: j <= k < |u| - 1 ==> Steps(u, i, j)[k].crowd == Interior(u, i, k)
    decreases |u| - j
  {
    if j + 1 < |u| {
      var u' := u[j := u[j].(crowd := Interior(u, i, j))];
      StepsEffect(u', i, j + 1);
      assert Strips(u') == Strips(u);
      forall k | j < k < |u| - 1
        ensures Interior(u', i, k) == Interior(u, i, k)
      {
        assert u'[k] == u[k] && u'[k - 1].objectives == u[k - 1].objectives;
        assert u'[0].objectives == u[0].objectives && u'[|u| - 1] == u[|u| - 1];
      }
    }
  }

  /** One iteration of the outer loop of `crowding()`: sort by objective
      `i`, give both ends infinity, then run the inner loop. */
  function CrowdPass(s: seq<Individual>, i: nat): (r: seq<Individual>)
    ensures |r| == |s|
  {
    Steps(SortBy(s, i), i, 0)
  }

  /** What a pass does to each position of the sorted list `t`. */
  lemma PassAt(s: seq<Individual>, t: seq<Individual>, i: nat)
    requires t == SortBy(s, i)
    ensures Strips(CrowdPass(s, i)) == Strips(t)
    ensures |t| > 0 ==> CrowdPass(s, i)[0].crowd == Inf && CrowdPass(s, i)[|t| - 1].crowd == Inf
    ensures forall j :: 0 < j < |t| - 1 ==> CrowdPass(s, i)[j].crowd == Interior(t, i, j)
  {
    if |t| > 0 {
      EndsFacts(t);
      StepsEffect(Ends(t), i, 1);
      forall j | 0 < j < |t| - 1
        ensures Interior(Ends(t), i, j) == Interior(t, i, j)
      {
      }
    }
  }

  /** A pass permutes the members (up to their crowding values). */
  lemma PassStrips(s: seq<Individual>, i: nat)
    ensures multiset(Strips(CrowdPass(s, i))) == multiset(Strips(s))
  {
    PassAt(s, SortBy(s, i), i);
    StripsSortBy(s, i);
  }

  /** A pass leaves the members sorted by objective `i`, with both ends
      infinite. */
  lemma PassOrder(s: seq<Individual>, i: nat)
    ensures SortedBy(CrowdPass(s, i), i)
    ensures |s| > 0 ==> CrowdPass(s, i)[0].crowd == Inf && CrowdPass(s, i)[|s| - 1].crowd == Inf
  {
    var t := SortBy(s, i);
    PassAt(s, t, i);
    SortBySorted(s, i);
    SortedUpToStrip(CrowdPass(s, i), t, i);
  }

  /** Crowding values do not take part in the order by an objective. */
  lemma SortedUpToStrip(r: seq<Individual>, t: seq<Individual>, i: nat)
    requires Strips(r) == Strips(t) && SortedBy(t, i)
    ensures SortedBy(r, i)
  {
    forall a, b | 0 <= a <= b < |r|
      ensures Obj(r[a], i) <= Obj(r[b], i)
    {
      assert Strips(r)[a] == Strips(t)[a] && Strips(r)[b] == Strips(t)[b];
    }
  }

  /** The outer loop `for i in range(obj_count)` of `crowding()`, from
      objective `i` on, `n` being the number of objectives. */
  function Passes(s: seq<Individual>, i: nat, n: nat): (r: seq<Individual>)
    ensures |r| == |s|
    decreases n - i
  {
    if i >= n then s else Passes(CrowdPass(s, i), i + 1, n)
  }

  lemma {:induction false} PassesStrips(s: seq<Individual>, i: nat, n: nat)
    ensures multiset(Strips(Passes(s, i, n))) == multiset(Strips(s))
    decreases n - i
  {
    if i < n {
      PassStrips(s, i);
      PassesStrips(CrowdPass(s, i), i + 1, n);
    }
  }

  /** Running the passes from `i` to `n` is running those from `i` to `j`,
      then those from `j` to `n`. */
  lemma {:induction false} PassesSplit(s: seq<Individual>, i: nat, j: nat, n: nat)
    requires i <= j <= n
    ensures Passes(s, i, n) == Passes(Passes(s, i, j), j, n)
    decreases j - i
  {
    if i < j {
      PassesSplit(CrowdPass(s, i), i + 1, j, n);
    }
  }

  /** The state after pass `i` is that pass applied to the state before it. */
  lemma PassesAt(s: seq<Individual>, i: nat, n: nat)
    requires i < n
    ensures Passes(s, 0, n) == Passes(CrowdPass(Passes(s, 0, i), i), i + 1, n)
  {
    PassesSplit(s, 0, i, n);
  }

  lemma PassesOrder(s: seq<Individual>, n: nat)
    requires n > 0
    ensures SortedBy(Passes(s, 0, n), n - 1)
    ensures |s| > 0 ==> Passes(s, 0, n)[0].crowd == Inf && Passes(s, 0, n)[|s| - 1].crowd == Inf
  {
    var u := Passes(s, 0, n - 1);
    PassesAt(s, n - 1, n);
    PassOrder(u, n - 1);
  }

  /** Every member has at least as many objectives as the first one (the
      sort keys of `crowding()` exist). */
  predicate KeysExist(ms: seq<Individual>)
  {
    forall k :: 0 <= k < |ms| ==> |ms[0].objectives| <= |ms[k].objectives|
  }

  /** `crowding()`: fails (index error on `archive[0]`) on an empty archive;
      otherwise leaves the archive a permutation of its members, sorted by
      the last objective, with both ends at infinity. */
  function Crowding(ms: seq<Individual>): (r: Option<seq<Individual>>)
    requires KeysExist(ms)
    ensures r.None? <==> |ms| == 0
    ensures r.Some? ==> |r.value| == |ms| && multiset(Strips(r.value)) == multiset(Strips(ms))
    ensures r.Some? && |ms[0].objectives| > 0 ==>
      SortedBy(r.value, |ms[0].objectives| - 1)
      && r.value[0].crowd == Inf && r.value[|r.value| - 1].crowd == Inf
    ensures r.Some? && |ms[0].objectives| == 0 ==>
      forall k :: 0 <= k < |ms| ==> r.value[k].crowd == Fin(0.0)
  {
    if |ms| == 0 then None
    else
      var n := |ms[0].objectives|;
      PassesStrips(Reset(ms), 0, n);
      if n == 0 then Some(Passes(Reset(ms), 0, n))
      else
        PassesOrder(Reset(ms), n);
        Some(Passes(Reset(ms), 0, n))
  }

  // ---------------------------------------------------------------------
  // Facts about one pass

  lemma DivUnit(d: real, w: real)
    requires 0.0 <= d <= w && w > 0.0
    ensures 0.0 <= d / w <= 1.0
  {
    assert d / w * w == d;
  }

  /** A pass adds at most one to a finite value and never lowers it. */
  lemma PassBound(s: seq<Individual>, i: nat, c: real)
    requires forall k :: 0 <= k < |s| && s[k].crowd.Fin? ==> 0.0 <= s[k].crowd.v <= c
    ensures forall j :: 0 <= j < |s| && CrowdPass(s, i)[j].crowd.Fin? ==>
      0.0 <= CrowdPass(s, i)[j].crowd.v <= c + 1.0
  {
    var t := SortBy(s, i);
    var r := CrowdPass(s, i);
    PassAt(s, t, i);
    SortByPermutes(s, i);
    if |t| > 0 {
      forall j | 0 < j < |t| - 1 && Interior(t, i, j).Fin?
        ensures 0.0 <= Interior(t, i, j).v <= c + 1.0
      {
        assert t[j] in multiset(s);
        SortBySorted(s, i);
        InteriorBound(t, i, j, c);
      }
    }
  }

  /** The value of an interior position grows by a gap in [0, 1]. */
  lemma InteriorBound(t: seq<Individual>, i: nat, j: nat, c: real)
    requires SortedBy(t, i) && 0 < j < |t| - 1
    requires t[j].crowd.Fin? ==> 0.0 <= t[j].crowd.v <= c
    requires Interior(t, i, j).Fin?
    ensures 0.0 <= Interior(t, i, j).v <= c + 1.0
  {
    var lo := Obj(t[0], i);
    var hi := Obj(t[|t| - 1], i);
    var d := Obj(t[j], i) - Obj(t[j - 1], i);
    assert lo <= Obj(t[j - 1], i) <= Obj(t[j], i) <= hi;
    DivUnit(d, hi - lo);
  }

  /** An infinite value stays infinite: the member carrying it is somewhere
      in the output, still infinite. */
  lemma PassKeepsInf(s: seq<Individual>, i: nat, x: Individual)
    requires x in s && x.crowd == Inf
    ensures exists j :: (0 <= j < |s| && CrowdPass(s, i)[j].crowd == Inf
                         && Strip(CrowdPass(s, i)[j]) == Strip(x))
  {
    var t := SortBy(s, i);
    assert x in multiset(t) by { SortByPermutes(s, i); }
    var j :| 0 <= j < |t| && t[j] == x;
    PassAt(s, t, i);
    InfCarried(CrowdPass(s, i), t, i, j);
  }

  /** Position `j` of a pass's output, `r`, over the sorted list `t`: an
      infinite value there stays infinite. */
  lemma InfCarried(r: seq<Individual>, t: seq<Individual>, i: nat, j: nat)
    requires j < |t| && t[j].crowd == Inf && Strips(r) == Strips(t)
    requires r[0].crowd == Inf && r[|t| - 1].crowd == Inf
    requires forall k :: 0 < k < |t| - 1 ==> r[k].crowd == Interior(t, i, k)
    ensures r[j].crowd == Inf && Strip(r[j]) == Strip(t[j])
  {
    assert Strips(r)[j] == Strips(t)[j];
  }

  /** With zero spread on objective `i`, a pass makes every value infinite. */
  lemma PassZeroSpread(s: seq<Individual>, i: nat)
    requires forall k :: 0 <= k < |s| ==> Obj(s[k], i) == Obj(s[0], i)
    ensures forall j :: 0 <= j < |s| ==> CrowdPass(s, i)[j].crowd == Inf
  {
    var t := SortBy(s, i);
    PassAt(s, t, i);
    if |t| > 0 {
      SortByPermutes(s, i);
      FlatEnds(s, t, i);
      assert forall j :: 0 < j < |t| - 1 ==> Interior(t, i, j) == Inf;
    }
  }

  /** A permutation of a list flat in objective `i` has equal ends there. */
  lemma FlatEnds(s: seq<Individual>, t: seq<Individual>, i: nat)
    requires multiset(t) == multiset(s) && |t| > 0
    requires forall k :: 0 <= k < |s| ==> Obj(s[k], i) == Obj(s[0], i)
    ensures Obj(t[0], i) == Obj(t[|t| - 1], i)
  {
    assert t[0] in multiset(s) && t[|t| - 1] in multiset(s);
  }

  lemma PassKeepsAllInf(s: seq<Individual>, i: nat)
    requires forall k :: 0 <= k < |s| ==> s[k].crowd == Inf
    ensures forall j :: 0 <= j < |s| ==> CrowdPass(s, i)[j].crowd == Inf
  {
    var t := SortBy(s, i);
    PassAt(s, t, i);
    SortByPermutes(s, i);
    forall j | 0 <= j < |t|
      ensures t[j].crowd == Inf
    {
      assert t[j] in multiset(s);
    }
  }

  // ---------------------------------------------------------------------
  // Facts about the whole of crowding()

  /** Two lists with the same multiset of `Strip`s hold the same objective
      vectors. */
  lemma SameObjectives(s: seq<Individual>, t: seq<Individual>, k: nat)
    requires multiset(Strips(s)) == multiset(Strips(t)) && k < |s|
    ensures exists k' :: 0 <= k' < |t| && t[k'].objectives == s[k].objectives
  {
    assert Strips(s)[k] in multiset(Strips(t));
    var k' :| 0 <= k' < |t| && Strips(t)[k'] == Strips(s)[k];
    assert Strip(t[k']) == Strip(s[k]);
  }

  lemma {:induction false} PassesBound(s: seq<Individual>, i: nat, n: nat, c: real)
    requires i <= n
    requires forall k :: 0 <= k < |s| && s[k].crowd.Fin? ==> 0.0 <= s[k].crowd.v <= c
    ensures forall k :: 0 <= k < |s| && Passes(s, i, n)[k].crowd.Fin? ==>
      0.0 <= Passes(s, i, n)[k].crowd.v <= c + (n - i) as real
    decreases n - i
  {
    if i < n {
      PassBound(s, i, c);
      PassesBound(CrowdPass(s, i), i + 1, n, c + 1.0);
    }
  }

  /** Every finite crowding value lies in [0, number of objectives]: each
      objective adds a normalised gap in [0, 1]. */
  lemma CrowdingBound(ms: seq<Individual>)
    requires KeysExist(ms) && |ms| > 0
    ensures forall k :: 0 <= k < |ms| && Crowding(ms).value[k].crowd.Fin? ==>
      0.0 <= Crowding(ms).value[k].crowd.v <= |ms[0].objectives| as real
  {
    PassesBound(Reset(ms), 0, |ms[0].objectives|, 0.0);
  }

  lemma {:induction false} PassesKeepsInf(s: seq<Individual>, i: nat, n: nat, x: Individual)
    requires x in s && x.crowd == Inf
    ensures exists k :: (0 <= k < |s| && Passes(s, i, n)[k].crowd == Inf
                         && Strip(Passes(s, i, n)[k]) == Strip(x))
    decreases n - i
  {
    if i < n {
      var r := CrowdPass(s, i);
      PassKeepsInf(s, i, x);
      var k :| 0 <= k < |s| && r[k].crowd == Inf && Strip(r[k]) == Strip(x);
      PassesKeepsInf(r, i + 1, n, r[k]);
      assert Passes(s, i, n) == Passes(r, i + 1, n);
      var k' :| 0 <= k' < |s| && Passes(r, i + 1, n)[k'].crowd == Inf
        && Strip(Passes(r, i + 1, n)[k']) == Strip(r[k]);
    } else {
      var k :| 0 <= k < |s| && s[k] == x;
      assert Passes(s, i, n)[k] == x;
    }
  }

  lemma {:induction false} PassesKeepsAllInf(s: seq<Individual>, i: nat, n: nat)
    requires forall k :: 0 <= k < |s| ==> s[k].crowd == Inf
    ensures forall k :: 0 <= k < |s| ==> Passes(s, i, n)[k].crowd == Inf
    decreases n - i
  {
    if i < n {
      PassKeepsAllInf(s, i);
      PassesKeepsAllInf(CrowdPass(s, i), i + 1, n);
    }
  }

  /** A list whose `Strip`s are those of `after`, sorted by objective `i`,
      has members with the least and the greatest objective `i` wherever
      it keeps the `Strip`s of the ends of `after`. */
  lemma ExtremesKept(r: seq<Individual>, after: seq<Individual>, i: nat, a: nat, b: nat)
    requires multiset(Strips(r)) == multiset(Strips(after)) && SortedBy(after, i)
    requires a < |r| && b < |r| && |after| > 0
    requires Strip(r[a]) == Strip(after[0]) && Strip(r[b]) == Strip(after[|after| - 1])
    ensures forall k :: 0 <= k < |r| ==> Obj(r[a], i) <= Obj(r[k], i) <= Obj(r[b], i)
  {
    forall k | 0 <= k < |r|
      ensures Obj(r[a], i) <= Obj(r[k], i) <= Obj(r[b], i)
    {
      SameObjectives(r, after, k);
      var j :| 0 <= j < |after| && after[j].objectives == r[k].objectives;
      assert Obj(after[0], i) <= Obj(after[j], i) <= Obj(after[|after| - 1], i);
      assert r[a].objectives == Strip(r[a]).objectives;
      assert r[b].objectives == Strip(r[b]).objectives;
    }
  }

  /** The archive right after pass `i`, from which the later passes run. */
  lemma StateAfter(s: seq<Individual>, i: nat, n: nat) returns (after: seq<Individual>)
    requires i < n
    ensures |after| == |s|
    ensures Passes(s, 0, n) == Passes(after, i + 1, n)
    ensures multiset(Strips(after)) == multiset(Strips(s))
    ensures SortedBy(after, i)
    ensures |s| > 0 ==> after[0].crowd == Inf && after[|s| - 1].crowd == Inf
  {
    var before := Passes(s, 0, i);
    after := CrowdPass(before, i);
    PassesAt(s, i, n);
    PassOrder(before, i);
    PassesStrips(s, 0, i);
    PassStrips(before, i);
  }

  /** For every objective, some member with the least value of it and some
      member with the greatest value of it end with infinite crowding. */
  lemma CrowdingExtremes(ms: seq<Individual>, i: nat)
    requires KeysExist(ms) && |ms| > 0 && i < |ms[0].objectives|
    ensures var r := Crowding(ms).value;
      (exists k :: (0 <= k < |r| && r[k].crowd == Inf
                    && forall k' :: 0 <= k' < |r| ==> Obj(r[k], i) <= Obj(r[k'], i)))
      && (exists k :: (0 <= k < |r| && r[k].crowd == Inf
                       && forall k' :: 0 <= k' < |r| ==> Obj(r[k'], i) <= Obj(r[k], i)))
  {
    CrowdingIsPasses(ms);
    PassesExtremes(Reset(ms), i, |ms[0].objectives|);
  }

  /** `Crowding` of a non-empty archive is the passes over the reset one. */
  lemma CrowdingIsPasses(ms: seq<Individual>)
    requires KeysExist(ms) && |ms| > 0
    ensures Crowding(ms).value == Passes(Reset(ms), 0, |ms[0].objectives|)
  {
  }

  /** `CrowdingExtremes` for the passes themselves. */
  lemma PassesExtremes(s: seq<Individual>, i: nat, n: nat)
    requires i < n && |s| > 0
    ensures var r := Passes(s, 0, n);
      (exists k :: (0 <= k < |r| && r[k].crowd == Inf
                    && forall k' :: 0 <= k' < |r| ==> Obj(r[k], i) <= Obj(r[k'], i)))
      && (exists k :: (0 <= k < |r| && r[k].crowd == Inf
                       && forall k' :: 0 <= k' < |r| ==> Obj(r[k'], i) <= Obj(r[k], i)))
  {
    var a, b := ExtremePositions(s, i, n);
  }

  /** Positions of the final list holding, with infinite crowding, a least
      and a greatest member in objective `i`. */
  lemma ExtremePositions(s: seq<Individual>, i: nat, n: nat) returns (a: nat, b: nat)
    requires i < n && |s| > 0
    ensures var r := Passes(s, 0, n);
      a < |r| && b < |r| && r[a].crowd == Inf && r[b].crowd == Inf
      && forall k :: 0 <= k < |r| ==> Obj(r[a], i) <= Obj(r[k], i) <= Obj(r[b], i)
  {
    var after := StateAfter(s, i, n);
    var r := Passes(after, i + 1, n);
    a := InfAt(after, i + 1, n, after[0]);
    b := InfAt(after, i + 1, n, after[|after| - 1]);
    PassesStrips(after, i + 1, n);
    ExtremesKept(r, after, i, a, b);
  }

  /** Where the member `x` with infinite crowding ends up. */
  lemma InfAt(s: seq<Individual>, i: nat, n: nat, x: Individual) returns (k: nat)
    requires x in s && x.crowd == Inf
    ensures k < |s| && Passes(s, i, n)[k].crowd == Inf && Strip(Passes(s, i, n)[k]) == Strip(x)
  {
    PassesKeepsInf(s, i, n, x);
    k :| 0 <= k < |s| && Passes(s, i, n)[k].crowd == Inf && Strip(Passes(s, i, n)[k]) == Strip(x);
  }

  /** An objective on which all members agree makes every crowding value
      infinite. */
  lemma CrowdingZeroSpread(ms: seq<Individual>, i: nat)
    requires KeysExist(ms) && |ms| > 0 && i < |ms[0].objectives|
    requires forall k :: 0 <= k < |ms| ==> Obj(ms[k], i) == Obj(ms[0], i)
    ensures forall k :: 0 <= k < |ms| ==> Crowding(ms).value[k].crowd == Inf
  {
    CrowdingIsPasses(ms);
    var s := Reset(ms);
    assert forall k :: 0 <= k < |s| ==> Obj(s[k], i) == Obj(s[0], i) by {
      forall k | 0 <= k < |s|
        ensures Obj(s[k], i) == Obj(s[0], i)
      {
        assert Strips(s)[k] == Strips(ms)[k] && Strips(s)[0] == Strips(ms)[0];
      }
    }
    PassesZeroSpread(s, i, |ms[0].objectives|);
  }

  /** `CrowdingZeroSpread` for the passes themselves. */
  lemma PassesZeroSpread(s: seq<Individual>, i: nat, n: nat)
    requires i < n && |s| > 0
    requires forall k :: 0 <= k < |s| ==> Obj(s[k], i) == Obj(s[0], i)
    ensures forall k :: 0 <= k < |s| ==> Passes(s, 0, n)[k].crowd == Inf
  {
    var before := Passes(s, 0, i);
    PassesStrips(s, 0, i);
    forall k | 0 <= k < |before|
      ensures Obj(before[k], i) == Obj(s[0], i)
    {
      SameObjectives(before, s, k);
    }
    PassZeroSpread(before, i);
    PassesAt(s, i, n);
    PassesKeepsAllInf(CrowdPass(before, i), i + 1, n);
  }

  // ---------------------------------------------------------------------
  // prune()

  /** `max(archive, key=crowd_val)` scanning from `j`, `best` being the
      first maximum of `s[..j]`: a later member replaces it only when
      strictly larger. */
  function MaxFrom(s: seq<Individual>, j: nat, best: nat): (r: nat)
    requires best < j <= |s|
    requires forall k :: 0 <= k < j ==> CrowdLe(s[k].crowd, s[best].crowd)
    requires forall k :: 0 <= k < best ==> CrowdLt(s[k].crowd, s[best].crowd)
    ensures r < |s|
    ensures forall k :: 0 <= k < |s| ==> CrowdLe(s[k].crowd, s[r].crowd)
    ensures forall k :: 0 <= k < r ==> CrowdLt(s[k].crowd, s[r].crowd)
    decreases |s| - j
  {
    if j == |s| then best
    else if CrowdLt(s[best].crowd, s[j].crowd) then
      assert forall k :: 0 <= k < j ==> CrowdLt(s[k].crowd, s[j].crowd) by {
        forall k | 0 <= k < j
          ensures CrowdLt(s[k].crowd, s[j].crowd)
        {
          CrowdLeLt(s[k].crowd, s[best].crowd, s[j].crowd);
        }
      }
      MaxFrom(s, j + 1, j)
    else MaxFrom(s, j + 1, best)
  }

  /** The index of the first member with the largest crowding value. */
  function FirstMax(s: seq<Individual>): (r: nat)
    requires |s| > 0
    ensures r < |s|
    ensures forall k :: 0 <= k < |s| ==> CrowdLe(s[k].crowd, s[r].crowd)
    ensures forall k :: 0 <= k < r ==> CrowdLt(s[k].crowd, s[r].crowd)
  {
    MaxFrom(s, 1, 0)
  }

  /** `prune()`: recompute crowding, remove the first member with the
      largest value. */
  function Prune(ms: seq<Individual>): (r: seq<Individual>)
    requires KeysExist(ms) && |ms| > 0
    ensures |r| == |ms| - 1
  {
    var c := Crowding(ms).value;
    var k := FirstMax(c);
    c[..k] + c[k + 1..]
  }

  /** After `crowding()` the first maximum is always the head: it is
      infinite (or, without objectives, every value is 0). So `prune`
      evicts the member with the smallest last objective, an extreme one. */
  lemma PruneEvictsHead(ms: seq<Individual>)
    requires KeysExist(ms) && |ms| > 0
    ensures FirstMax(Crowding(ms).value) == 0
    ensures Prune(ms) == Crowding(ms).value[1..]
    ensures var c := Crowding(ms).value; var n := |ms[0].objectives|;
      n > 0 ==> c[0].crowd == Inf && forall k :: 0 <= k < |c| ==> Obj(c[0], n - 1) <= Obj(c[k], n - 1)
  {
  }

  /** `prune()` drops one member and keeps the rest sorted by the last
      objective. */
  lemma PruneKeeps(ms: seq<Individual>)
    requires KeysExist(ms) && |ms| > 0
    ensures multiset(Strips(Prune(ms))) + multiset{Strip(Crowding(ms).value[0])} == multiset(Strips(ms))
    ensures |ms[0].objectives| > 0 ==> SortedBy(Prune(ms), |ms[0].objectives| - 1)
  {
    var c := Crowding(ms).value;
    assert Prune(ms) == c[1..] by {
      PruneEvictsHead(ms);
    }
    HeadDropped(c, ms, |ms[0].objectives|);
  }

  /** Dropping the head of a sorted rearrangement of `ms` leaves a sorted
      list holding the rest. */
  lemma HeadDropped(c: seq<Individual>, ms: seq<Individual>, n: nat)
    requires |c| > 0 && multiset(Strips(c)) == multiset(Strips(ms))
    requires n > 0 ==> SortedBy(c, n - 1)
    ensures multiset(Strips(c[1..])) + multiset{Strip(c[0])} == multiset(Strips(ms))
    ensures n > 0 ==> SortedBy(c[1..], n - 1)
  {
    StripsCons(c);
    assert forall a :: 0 <= a < |c| - 1 ==> c[1..][a] == c[a + 1];
  }

  // ---------------------------------------------------------------------
  // add()

  /** `LeaderArchive(size).add(p)`: `Archive.add` without relaxation, then
      one `prune()` when the archive outgrew `size`. The answer is that of
      `Archive.add`, even when the prune evicts `p` itself. */
  function LeaderAdd(ms: seq<Individual>, size: int, p: Individual): (r: Archives.AddResult)
    requires SameArity(ms, |p.objectives|)
    ensures r.added == Archives.Add(ms, p, 0.0).added
    ensures |ms| <= size ==> |r.members| <= size
    ensures SameArity(r.members, |p.objectives|)
    ensures multiset(Strips(r.members)) <= multiset(Strips(ms + [p]))
  {
    var a := Archives.Add(ms, p, 0.0);
    AddStrips(ms, p);
    if a.added && |a.members| > size then
      var r := Prune(a.members);
      PruneKeeps(a.members);
      PruneArity(a.members, |p.objectives|);
      Archives.AddResult(true, r)
    else a
  }

  lemma AddStrips(ms: seq<Individual>, p: Individual)
    requires SameArity(ms, |p.objectives|)
    ensures multiset(Strips(Archives.Add(ms, p, 0.0).members)) <= multiset(Strips(ms + [p]))
    ensures |Archives.Add(ms, p, 0.0).members| <= |ms| + 1
    ensures !Archives.Add(ms, p, 0.0).added ==> |Archives.Add(ms, p, 0.0).members| <= |ms|
  {
    var a := Archives.Add(ms, p, 0.0);
    StripsSnoc(ms, p);
    if a.added {
      var kept := a.members[..|a.members| - 1];
      assert |kept| <= |ms| && multiset(Strips(kept)) <= multiset(Strips(ms)) by {
        Archives.DropsDominatedMembers(ms, kept, p, 0.0);
        DropsStrips(ms, kept, p, 0.0);
      }
      assert a.members == kept + [p];
      StripsSnoc(kept, p);
    } else {
      assert |a.members| <= |ms| && multiset(Strips(a.members)) <= multiset(Strips(ms)) by {
        Archives.DropsDominatedMembers(ms, a.members, p, 0.0);
        DropsStrips(ms, a.members, p, 0.0);
      }
    }
  }

  lemma StripsSnoc(ms: seq<Individual>, p: Individual)
    ensures multiset(Strips(ms + [p])) == multiset(Strips(ms)) + multiset{Strip(p)}
  {
    assert Strips(ms + [p]) == Strips(ms) + [Strip(p)];
  }

  /** What the scan of `Archive.add` keeps is, up to crowding, part of what
      it was given. */
  lemma {:induction false} DropsStrips(ms: seq<Individual>, kept: seq<Individual>, p: Individual, eta: real)
    requires SameArity(ms, |p.objectives|) && eta != -1.0
    requires Archives.DropsDominated(ms, kept, p, eta)
    ensures multiset(Strips(kept)) <= multiset(Strips(ms))
    decreases |ms|
  {
    if |ms| > 0 {
      StripsCons(ms);
      if |kept| > 0 && kept[0] == ms[0] && Archives.DropsDominated(ms[1..], kept[1..], p, eta) {
        DropsStrips(ms[1..], kept[1..], p, eta);
        StripsCons(kept);
      } else {
        DropsStrips(ms[1..], kept, p, eta);
      }
    }
  }

  lemma PruneArity(ms: seq<Individual>, n: nat)
    requires SameArity(ms, n) && |ms| > 0
    ensures SameArity(Prune(ms), n)
  {
    var r := Prune(ms);
    PruneKeeps(ms);
    forall k | 0 <= k < |r|
      ensures |r[k].objectives| == n
    {
      assert Strips(r)[k] in multiset(Strips(ms));
      var j :| 0 <= j < |ms| && Strips(ms)[j] == Strips(r)[k];
    }
  }

  // ---------------------------------------------------------------------
  // CrowdingTournament and the choice of a guide

  /** Sample position `i` holds what Python's `min` returns over the
      sampled members: a smallest crowding value, and the first one among
      equals (every earlier sampled member is strictly larger). */
  predicate FirstMinimum(pool: seq<Individual>, sample: seq<nat>, i: nat)
    requires i < |sample| && forall k :: 0 <= k < |sample| ==> sample[k] < |pool|
  {
    (forall k :: 0 <= k < |sample| ==> CrowdLe(pool[sample[i]].crowd, pool[sample[k]].crowd))
    && forall k :: 0 <= k < i ==> CrowdLt(pool[sample[i]].crowd, pool[sample[k]].crowd)
  }

  /** `min(sub_pool, key=crowd_val)` scanning from `j`, `best` being the
      first minimum so far. */
  function MinFrom(pool: seq<Individual>, sample: seq<nat>, j: nat, best: nat): (r: nat)
    requires best < j <= |sample|
    requires forall k :: 0 <= k < |sample| ==> sample[k] < |pool|
    requires forall k :: 0 <= k < j ==> CrowdLe(pool[sample[best]].crowd, pool[sample[k]].crowd)
    requires forall k :: 0 <= k < best ==> CrowdLt(pool[sample[best]].crowd, pool[sample[k]].crowd)
    ensures r < |sample|
    ensures forall k :: 0 <= k < |sample| ==> CrowdLe(pool[sample[r]].crowd, pool[sample[k]].crowd)
    ensures forall k :: 0 <= k < r ==> CrowdLt(pool[sample[r]].crowd, pool[sample[k]].crowd)
    decreases |sample| - j
  {
    if j == |sample| then best
    else if CrowdLt(pool[sample[j]].crowd, pool[sample[best]].crowd) then
      assert forall k :: 0 <= k < j ==> CrowdLt(pool[sample[j]].crowd, pool[sample[k]].crowd) by {
        forall k | 0 <= k < j
          ensures CrowdLt(pool[sample[j]].crowd, pool[sample[k]].crowd)
        {
          CrowdLtLe(pool[sample[j]].crowd, pool[sample[best]].crowd, pool[sample[k]].crowd);
        }
      }
      MinFrom(pool, sample, j + 1, j)
    else MinFrom(pool, sample, j + 1, best)
  }

  /** `CrowdingTournament.__call__`, the sample drawn by `random.sample`
      given as distinct indices into the pool: the sampled member with the
      smallest crowding value wins, i.e. the most crowded one, and among
      equal values the one sampled first. */
  function Tournament(pool: seq<Individual>, sample: seq<nat>): (r: Individual)
    requires 0 < |sample| <= |pool|
    requires forall k :: 0 <= k < |sample| ==> sample[k] < |pool|
    requires forall a, b :: 0 <= a < b < |sample| ==> sample[a] != sample[b]
    ensures exists k :: 0 <= k < |sample| && r == pool[sample[k]]
    ensures forall k :: 0 <= k < |sample| ==> CrowdLe(r.crowd, pool[sample[k]].crowd)
    ensures exists i :: 0 <= i < |sample| && r == pool[sample[i]] && FirstMinimum(pool, sample, i)
  {
    var i := MinFrom(pool, sample, 1, 0);
    assert FirstMinimum(pool, sample, i);
    pool[sample[i]]
  }

  /** A tie goes to the member sampled first: with equal crowding values
      (both infinite, say) the first of two sampled members wins. */
  lemma TournamentTie(pool: seq<Individual>, sample: seq<nat>)
    requires |sample| == 2 <= |pool| && sample[0] < |pool| && sample[1] < |pool| && sample[0] != sample[1]
    requires pool[sample[0]].crowd == pool[sample[1]].crowd
    ensures Tournament(pool, sample) == pool[sample[0]]
  {
    var r := Tournament(pool, sample);
    var i :| 0 <= i < |sample| && r == pool[sample[i]] && FirstMinimum(pool, sample, i);
    assert i == 0;
  }

  /** `best_global` in `compute_speed`: the only leader when there is one,
      otherwise the winner of a two-member tournament. */
  function Guide(leaders: seq<Individual>, sample: seq<nat>): (r: Individual)
    requires |leaders| > 0
    requires |leaders| > 1 ==>
      |sample| == TournamentSize
      && (forall k :: 0 <= k < |sample| ==> sample[k] < |leaders|)
      && (forall a, b :: 0 <= a < b < |sample| ==> sample[a] != sample[b])
    ensures r in leaders
    ensures |leaders| == 1 ==> r == leaders[0]
    ensures |leaders| > 1 ==> forall k :: 0 <= k < |sample| ==> CrowdLe(r.crowd, leaders[sample[k]].crowd)
    ensures |leaders| > 1 ==>
      exists i :: 0 <= i < |sample| && r == leaders[sample[i]] && FirstMinimum(leaders, sample, i)
  {
    if |leaders| > 1 then Tournament(leaders, sample) else leaders[0]
  }

  /** In a permutation (up to crowding) of `ms` whose head has the least
      objective `m`, the head is the member of `ms` strictly least on `m`. */
  lemma HeadIsLeast(ms: seq<Individual>, cr: seq<Individual>, j: nat, m: nat)
    requires multiset(Strips(cr)) == multiset(Strips(ms)) && j < |ms| && |cr| > 0
    requires forall k :: 0 <= k < |cr| ==> Obj(cr[0], m) <= Obj(cr[k], m)
    requires forall k :: 0 <= k < |ms| && k != j ==> Obj(ms[j], m) < Obj(ms[k], m)
    ensures Strip(cr[0]) == Strip(ms[j])
  {
    SameObjectives(ms, cr, j);
    var j' :| 0 <= j' < |cr| && cr[j'].objectives == ms[j].objectives;
    assert Obj(cr[0], m) <= Obj(cr[j'], m);
    assert Strips(cr)[0] in multiset(Strips(ms));
    var k :| 0 <= k < |ms| && Strips(ms)[k] == Strips(cr)[0];
    assert Strip(ms[k]).objectives == cr[0].objectives;
    assert k == j;
  }

  /** A member whose last objective is strictly below everyone else's is
      the one `prune()` evicts. */
  lemma PruneEvictsLeastLast(ms: seq<Individual>, j: nat)
    requires KeysExist(ms) && j < |ms| && |ms[0].objectives| > 0
    requires forall k :: 0 <= k < |ms| && k != j ==>
      Obj(ms[j], |ms[0].objectives| - 1) < Obj(ms[k], |ms[0].objectives| - 1)
    ensures multiset(Strips(Prune(ms))) + multiset{Strip(ms[j])} == multiset(Strips(ms))
  {
    var cr := PruneParts(ms);
    HeadIsLeast(ms, cr, j, |ms[0].objectives| - 1);
  }

  lemma PruneParts(ms: seq<Individual>) returns (cr: seq<Individual>)
    requires KeysExist(ms) && |ms| > 0 && |ms[0].objectives| > 0
    ensures |cr| == |ms| && multiset(Strips(cr)) == multiset(Strips(ms))
    ensures multiset(Strips(Prune(ms))) + multiset{Strip(cr[0])} == multiset(Strips(ms))
    ensures forall k :: 0 <= k < |cr| ==> Obj(cr[0], |ms[0].objectives| - 1) <= Obj(cr[k], |ms[0].objectives| - 1)
  {
    cr := Crowding(ms).value;
    PruneEvictsHead(ms);
    PruneKeeps(ms);
  }

  // ---------------------------------------------------------------------
  // Worked examples

  /** Pruning the three mutually non-dominated points (1, 3), (2, 2) and
      (3, 1) evicts (3, 1), an extreme point, and keeps the interior one:
      the head of the list sorted by the last objective is evicted, since
      both ends of the last pass are infinite. */
  lemma PruneEvictsExtreme(ms: seq<Individual>)
    requires ms == [Individual([], [], None, Fin(0.0), [1.0, 3.0]),
                    Individual([], [], None, Fin(0.0), [2.0, 2.0]),
                    Individual([], [], None, Fin(0.0), [3.0, 1.0])]
    ensures multiset(Strips(Prune(ms))) == multiset{Strip(ms[0]), Strip(ms[1])}
  {
    LastOfThreeEvicted(ms);
  }

  /** Of three members, the one whose last objective is strictly the least
      is the one pruned. */
  lemma LastOfThreeEvicted(ms: seq<Individual>)
    requires KeysExist(ms) && |ms| == 3 && |ms[0].objectives| > 0
    requires var n := |ms[0].objectives| - 1; Obj(ms[2], n) < Obj(ms[0], n) && Obj(ms[2], n) < Obj(ms[1], n)
    ensures multiset(Strips(Prune(ms))) == multiset{Strip(ms[0]), Strip(ms[1])}
  {
    PruneEvictsLeastLast(ms, 2);
    AllButLast(ms, multiset(Strips(Prune(ms))));
  }

  /** What is left of three members after the third is taken away. */
  lemma AllButLast(ms: seq<Individual>, kept: multiset<Individual>)
    requires |ms| == 3 && kept + multiset{Strip(ms[2])} == multiset(Strips(ms))
    ensures kept == multiset{Strip(ms[0]), Strip(ms[1])}
  {
    assert Strips(ms) == [Strip(ms[0]), Strip(ms[1]), Strip(ms[2])];
    Cancel(kept, multiset{Strip(ms[0]), Strip(ms[1])}, multiset{Strip(ms[2])});
  }

  /** Multiset addition cancels. */
  lemma Cancel<T>(a: multiset<T>, b: multiset<T>, x: multiset<T>)
    requires a + x == b + x
    ensures a == b
  {
    assert forall y :: a[y] == (a + x)[y] - x[y] && b[y] == (b + x)[y] - x[y];
  }

  /** `add` can answer `True` for a candidate its own prune evicts: with
      room for one leader, adding (2, 1) next to (1, 2) keeps (1, 2) only. */
  lemma AddThenEvict(a: Individual, p: Individual)
    requires a == Individual([], [], None, Fin(0.0), [1.0, 2.0])
    requires p == Individual([], [], None, Fin(0.0), [2.0, 1.0])
    ensures LeaderAdd([a], 1, p).added
    ensures |LeaderAdd([a], 1, p).members| == 1 && Strip(LeaderAdd([a], 1, p).members[0]) == Strip(a)
  {
    PairAccepted(a, p);
    PairPruned([a, p]);
  }

  /** (1, 2) and (2, 1) do not dominate each other, so `add` takes (2, 1). */
  lemma PairAccepted(a: Individual, p: Individual)
    requires a == Individual([], [], None, Fin(0.0), [1.0, 2.0])
    requires p == Individual([], [], None, Fin(0.0), [2.0, 1.0])
    ensures Archives.Add([a], p, 0.0) == Archives.AddResult(true, [a, p])
  {
    DominatesAtZero(a, p);
    DominatesAtZero(p, a);
    assert !Dominates(a, p, 0.0) by {
      assert a.objectives[1] > p.objectives[1];
    }
    assert !Dominates(p, a, 0.0) by {
      assert p.objectives[0] > a.objectives[0];
    }
    EqualObjMeaning(a, p);
  }

  /** Pruning [(1, 2), (2, 1)] evicts (2, 1), the smaller last objective. */
  lemma PairPruned(ms: seq<Individual>)
    requires ms == [Individual([], [], None, Fin(0.0), [1.0, 2.0]), Individual([], [], None, Fin(0.0), [2.0, 1.0])]
    ensures |Prune(ms)| == 1 && Strip(Prune(ms)[0]) == Strip(ms[0])
  {
    PruneEvictsLeastLast(ms, 1);
    assert Strips(ms) == [Strip(ms[0]), Strip(ms[1])];
    var r := Prune(ms);
    assert multiset(Strips(r)) == multiset{Strip(ms[0])};
    assert Strips(r)[0] in multiset(Strips(r));
  }
}
