/** `archive.sort(key=lambda x: x.objectives[i])`: Python's sort is stable,
    modelled as an insertion sort that puts each member in front of the
    members with an equal or larger key it is inserted among. */
module ObjectiveSort {
  import opened Individuals

  predicate SortedBy(s: seq<Individual>, i: nat)
  {
    forall a, b :: 0 <= a <= b < |s| ==> Obj(s[a], i) <= Obj(s[b], i)
  }

  /** The members of `s` whose objective `i` equals `v`, in order. */
  function WithKey(s: seq<Individual>, i: nat, v: real): seq<Individual>
    decreases |s|
  {
    if |s| == 0 then []
    else if Obj(s[0], i) == v then [s[0]] + WithKey(s[1..], i, v)
    else WithKey(s[1..], i, v)
  }

  /** Insert `x` in front of the first member whose key is not below it. */
  function Insert(x: Individual, t: seq<Individual>, i: nat): (r: seq<Individual>)
    ensures |r| == |t| + 1
    decreases |t|
  {
    if |t| == 0 || Obj(x, i) <= Obj(t[0], i) then [x] + t
    else [t[0]] + Insert(x, t[1..], i)
  }

  lemma {:induction false} InsertPermutes(x: Individual, t: seq<Individual>, i: nat)
    ensures multiset(Insert(x, t, i)) == multiset{x} + multiset(t)
    decreases |t|
  {
    if |t| > 0 && Obj(x, i) > Obj(t[0], i) {
      InsertPermutes(x, t[1..], i);
      assert t == [t[0]] + t[1..];
    }
  }

  lemma {:induction false} InsertSorted(x: Individual, t: seq<Individual>, i: nat)
    requires SortedBy(t, i)
    ensures SortedBy(Insert(x, t, i), i)
    decreases |t|
  {
    if |t| > 0 && Obj(x, i) > Obj(t[0], i) {
      InsertSorted(x, t[1..], i);
      InsertAbove(x, t[1..], i, Obj(t[0], i));
      ConsSorted(t[0], Insert(x, t[1..], i), i);
    }
  }

  /** A bound below `x` and below every member of `t` stays below every
      member after the insertion. */
  lemma {:induction false} InsertAbove(x: Individual, t: seq<Individual>, i: nat, lo: real)
    requires lo <= Obj(x, i) && forall k :: 0 <= k < |t| ==> lo <= Obj(t[k], i)
    ensures forall k :: 0 <= k < |t| + 1 ==> lo <= Obj(Insert(x, t, i)[k], i)
    decreases |t|
  {
    if |t| > 0 && Obj(x, i) > Obj(t[0], i) {
      InsertAbove(x, t[1..], i, lo);
      var r := Insert(x, t, i);
      assert forall k :: 1 <= k < |r| ==> r[k] == Insert(x, t[1..], i)[k - 1];
    }
  }

  /** A head no larger than a sorted tail gives a sorted list. */
  lemma ConsSorted(h: Individual, rest: seq<Individual>, i: nat)
    requires SortedBy(rest, i) && forall k :: 0 <= k < |rest| ==> Obj(h, i) <= Obj(rest[k], i)
    ensures SortedBy([h] + rest, i)
  {
    var r := [h] + rest;
    forall a, b | 0 <= a <= b < |r|
      ensures Obj(r[a], i) <= Obj(r[b], i)
    {
      if a == 0 {
        if b > 0 {
          assert r[b] == rest[b - 1];
        }
      } else {
        assert r[a] == rest[a - 1] && r[b] == rest[b - 1];
      }
    }
  }

  /** The stable sort by objective `i`. */
  function SortBy(s: seq<Individual>, i: nat): (r: seq<Individual>)
    ensures |r| == |s|
    decreases |s|
  {
    if |s| == 0 then [] else Insert(s[0], SortBy(s[1..], i), i)
  }

  /** Sorting only reorders. */
  lemma {:induction false} SortByPermutes(s: seq<Individual>, i: nat)
    ensures multiset(SortBy(s, i)) == multiset(s)
    decreases |s|
  {
    if |s| > 0 {
      SortByPermutes(s[1..], i);
      InsertPermutes(s[0], SortBy(s[1..], i), i);
      MultisetCons(s);
    }
  }

  lemma MultisetCons(s: seq<Individual>)
    requires |s| > 0
    ensures multiset(s) == multiset{s[0]} + multiset(s[1..])
  {
    assert s == [s[0]] + s[1..];
  }

  lemma {:induction false} SortBySorted(s: seq<Individual>, i: nat)
    ensures SortedBy(SortBy(s, i), i)
    decreases |s|
  {
    if |s| > 0 {
      SortBySorted(s[1..], i);
      InsertSorted(s[0], SortBy(s[1..], i), i);
    }
  }

  lemma {:induction false} WithKeyInsert(x: Individual, t: seq<Individual>, i: nat, v: real)
    ensures WithKey(Insert(x, t, i), i, v) ==
      (if Obj(x, i) == v then [x] + WithKey(t, i, v) else WithKey(t, i, v))
    decreases |t|
  {
    if |t| == 0 || Obj(x, i) <= Obj(t[0], i) {
      assert ([x] + t)[1..] == t;
    } else {
      WithKeyInsert(x, t[1..], i, v);
      var r := Insert(x, t, i);
      assert r[1..] == Insert(x, t[1..], i);
      assert r[0] == t[0];
    }
  }

  /** Stability: for every key value, the members carrying it come out in
      their input order. */
  lemma {:induction false} SortByStable(s: seq<Individual>, i: nat, v: real)
    ensures WithKey(SortBy(s, i), i, v) == WithKey(s, i, v)
    decreases |s|
  {
    if |s| > 0 {
      SortByStable(s[1..], i, v);
      WithKeyInsert(s[0], SortBy(s[1..], i), i, v);
    }
  }

  /** Sorting keeps everything but the order: the `Strip`s of the output are
      a permutation of those of the input. */
  function Strips(s: seq<Individual>): seq<Individual>
  {
    seq(|s|, k requires 0 <= k < |s| => Strip(s[k]))
  }

  lemma {:induction false} StripsInsert(x: Individual, t: seq<Individual>, i: nat)
    ensures multiset(Strips(Insert(x, t, i))) == multiset{Strip(x)} + multiset(Strips(t))
    decreases |t|
  {
    var r := Insert(x, t, i);
    if |t| == 0 || Obj(x, i) <= Obj(t[0], i) {
      assert Strips(r) == [Strip(x)] + Strips(t);
    } else {
      StripsInsert(x, t[1..], i);
      assert Strips(r) == [Strip(t[0])] + Strips(Insert(x, t[1..], i));
      assert Strips(t) == [Strip(t[0])] + Strips(t[1..]);
    }
  }

  lemma {:induction false} StripsSortBy(s: seq<Individual>, i: nat)
    ensures multiset(Strips(SortBy(s, i))) == multiset(Strips(s))
    decreases |s|
  {
    if |s| > 0 {
      var t := SortBy(s[1..], i);
      assert multiset(Strips(t)) == multiset(Strips(s[1..])) by { StripsSortBy(s[1..], i); }
      assert multiset(Strips(Insert(s[0], t, i))) == multiset{Strip(s[0])} + multiset(Strips(t)) by {
        StripsInsert(s[0], t, i);
      }
      StripsCons(s);
    }
  }

  lemma StripsCons(s: seq<Individual>)
    requires |s| > 0
    ensures multiset(Strips(s)) == multiset{Strip(s[0])} + multiset(Strips(s[1..]))
  {
    assert Strips(s) == [Strip(s[0])] + Strips(s[1..]);
  }
}
