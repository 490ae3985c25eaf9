/** `Archive.add` of SMPSO.py / OMOPSO.py. The source iterates over the
    Python list while removing from it, so the element that slides into the
    slot of a removed member is never examined. The model keeps that
    behaviour: `Scan` states it by recursion, `AddInPlace` by an index loop
    as the list iterator runs it. */
module Archives {
  import opened Individuals

  datatype AddResult = AddResult(added: bool, members: seq<Individual>)

  /** `kept` is `ms` with some members deleted, order kept, and every
      deleted member is dominated by `p`. */
  predicate DropsDominated(ms: seq<Individual>, kept: seq<Individual>, p: Individual, eta: real)
    requires SameArity(ms, |p.objectives|) && eta != -1.0
    decreases |ms|
  {
    if |ms| == 0 then kept == []
    else
      (|kept| > 0 && kept[0] == ms[0] && DropsDominated(ms[1..], kept[1..], p, eta))
      || (Dominates(p, ms[0], eta) && DropsDominated(ms[1..], kept, p, eta))
  }

  /** The scan of `Archive.add` over `ms`, up to (not including) the final
      append. A member `p` dominates is removed and the member after it is
      kept without being looked at. */
  function Scan(ms: seq<Individual>, p: Individual, eta: real): (r: AddResult)
    requires SameArity(ms, |p.objectives|) && eta != -1.0
    ensures DropsDominated(ms, r.members, p, eta)
    ensures !r.added ==>
      exists k :: 0 <= k < |ms| && (Dominates(ms[k], p, eta) || EqualObj(ms[k], p))
    decreases |ms|
  {
    if |ms| == 0 then AddResult(true, [])
    else if Dominates(ms[0], p, eta) then
      DropsNothing(ms, p, eta);
      AddResult(false, ms)
    else if Dominates(p, ms[0], eta) then
      if |ms| == 1 then AddResult(true, [])
      else
        var rest := Scan(ms[2..], p, eta);
        assert ms[2..] == ms[1..][1..];
        AddResult(rest.added, [ms[1]] + rest.members)
    else if EqualObj(ms[0], p) then
      DropsNothing(ms, p, eta);
      AddResult(false, ms)
    else
      var rest := Scan(ms[1..], p, eta);
      AddResult(rest.added, [ms[0]] + rest.members)
  }

  /** `Archive(eta).add(p)` on an archive holding `ms`. True exactly when
      `p` is appended; the members kept are `ms` minus some that `p`
      dominates, in their original order, whichever the answer. */
  function Add(ms: seq<Individual>, p: Individual, eta: real): (r: AddResult)
    requires SameArity(ms, |p.objectives|) && eta != -1.0
    ensures r.added ==>
      |r.members| > 0 && r.members[|r.members| - 1] == p
      && DropsDominated(ms, r.members[..|r.members| - 1], p, eta)
    ensures !r.added ==> DropsDominated(ms, r.members, p, eta)
    ensures !r.added ==>
      exists k :: 0 <= k < |ms| && (Dominates(ms[k], p, eta) || EqualObj(ms[k], p))
    ensures SameArity(r.members, |p.objectives|)
  {
    var s := Scan(ms, p, eta);
    DropsDominatedMembers(ms, s.members, p, eta);
    if s.added then
      assert (s.members + [p])[..|s.members|] == s.members;
      AddResult(true, s.members + [p])
    else s
  }

  /** `AddResult` of a scan that has already kept `prefix`. */
  function After(prefix: seq<Individual>, r: AddResult): AddResult
  {
    AddResult(r.added, prefix + r.members)
  }

  /** The source's loop: a list index that moves on by one after every
      member, including after a removal, so that the member that slid into
      the removed one's slot is passed over. */
  method AddInPlace(ms: seq<Individual>, p: Individual, eta: real) returns (added: bool, archive: seq<Individual>)
    requires SameArity(ms, |p.objectives|) && eta != -1.0
    ensures AddResult(added, archive) == Add(ms, p, eta)
  {
    archive := ms;
    var k := 0;
    assert archive[k..] == ms;
    while k < |archive|
      invariant 0 <= k <= |archive|
      invariant SameArity(archive, |p.objectives|)
      invariant Scan(ms, p, eta) == After(archive[..k], Scan(archive[k..], p, eta))
      decreases |archive| - k
    {
      var l := archive[k];
      if Dominates(l, p, eta) {
        RejectStep(archive, k, p, eta);
        return false, archive;
      } else if Dominates(p, l, eta) {
        RemoveStep(archive, k, p, eta);
        archive := archive[..k] + archive[k + 1..];
        if k < |archive| {
          k := k + 1;
        }
      } else if EqualObj(l, p) {
        RejectStep(archive, k, p, eta);
        return false, archive;
      } else {
        KeepStep(archive, k, p, eta);
        k := k + 1;
      }
    }
    added := true;
    archive := archive + [p];
  }

  /** A member that dominates or equals `p` ends the scan with a rejection
      that leaves the archive as it is. */
  lemma RejectStep(archive: seq<Individual>, k: nat, p: Individual, eta: real)
    requires k < |archive| && SameArity(archive, |p.objectives|) && eta != -1.0
    requires Dominates(archive[k], p, eta) || (!Dominates(p, archive[k], eta) && EqualObj(archive[k], p))
    ensures After(archive[..k], Scan(archive[k..], p, eta)) == AddResult(false, archive)
  {
    assert archive[..k] + archive[k..] == archive;
  }

  /** Removing the member at `k` and moving on past its successor gives the
      state the scan of the longer list reaches. */
  lemma RemoveStep(archive: seq<Individual>, k: nat, p: Individual, eta: real)
    requires k < |archive| && SameArity(archive, |p.objectives|) && eta != -1.0
    requires !Dominates(archive[k], p, eta) && Dominates(p, archive[k], eta)
    ensures var next := archive[..k] + archive[k + 1..];
      SameArity(next, |p.objectives|)
      && (k < |next| ==> After(archive[..k], Scan(archive[k..], p, eta)) == After(next[..k + 1], Scan(next[k + 1..], p, eta)))
      && (k == |next| ==> After(archive[..k], Scan(archive[k..], p, eta)) == After(next[..k], Scan(next[k..], p, eta)))
  {
    var tail := archive[k..];
    var next := archive[..k] + archive[k + 1..];
    ScanRemoved(tail, p, eta);
    assert forall j :: 0 <= j < |next| ==> next[j] in archive;
    if k < |next| {
      assert next[k..] == tail[1..];
      SkipStep(next, k, tail);
    } else {
      assert next[..k] == archive[..k];
      assert next[k..] == [];
    }
  }

  /** Scan of a list whose first member `p` dominates. */
  lemma ScanRemoved(t: seq<Individual>, p: Individual, eta: real)
    requires SameArity(t, |p.objectives|) && eta != -1.0
    requires |t| > 0 && !Dominates(t[0], p, eta) && Dominates(p, t[0], eta)
    ensures |t| == 1 ==> Scan(t, p, eta) == AddResult(true, [])
    ensures |t| > 1 ==> Scan(t, p, eta) == After([t[1]], Scan(t[2..], p, eta))
  {
  }

  /** Scan of a list whose first member is kept after being examined. */
  lemma ScanKept(t: seq<Individual>, p: Individual, eta: real)
    requires SameArity(t, |p.objectives|) && eta != -1.0
    requires |t| > 0 && !Dominates(t[0], p, eta) && !Dominates(p, t[0], eta) && !EqualObj(t[0], p)
    ensures Scan(t, p, eta) == After([t[0]], Scan(t[1..], p, eta))
  {
  }

  lemma SkipStep(archive: seq<Individual>, k: nat, tail: seq<Individual>)
    requires k < |archive| && |tail| >= 2
    requires archive[k..] == tail[1..]
    ensures forall r :: After(archive[..k], After([tail[1]], r)) == After(archive[..k + 1], r)
    ensures archive[k + 1..] == tail[2..]
  {
    assert archive[..k + 1] == archive[..k] + [tail[1]];
  }

  lemma KeepStep(archive: seq<Individual>, k: nat, p: Individual, eta: real)
    requires k < |archive| && SameArity(archive, |p.objectives|) && eta != -1.0
    requires !Dominates(archive[k], p, eta) && !Dominates(p, archive[k], eta) && !EqualObj(archive[k], p)
    ensures After(archive[..k], Scan(archive[k..], p, eta)) == After(archive[..k + 1], Scan(archive[k + 1..], p, eta))
  {
    var tail := archive[k..];
    ScanKept(tail, p, eta);
    assert tail[1..] == archive[k + 1..];
    assert archive[..k + 1] == archive[..k] + [archive[k]];
    AfterAfter(archive[..k], [archive[k]], Scan(archive[k + 1..], p, eta));
  }

  lemma AfterAfter(a: seq<Individual>, b: seq<Individual>, r: AddResult)
    ensures After(a, After(b, r)) == After(a + b, r)
  {
    assert a + (b + r.members) == a + b + r.members;
  }

  lemma DropsDominatedMembers(ms: seq<Individual>, kept: seq<Individual>, p: Individual, eta: real)
    requires SameArity(ms, |p.objectives|) && eta != -1.0
    requires DropsDominated(ms, kept, p, eta)
    ensures |kept| <= |ms|
    ensures multiset(kept) <= multiset(ms)
    ensures forall x :: x in kept ==> x in ms
    ensures SameArity(kept, |p.objectives|)
    ensures forall x :: x in ms && x !in kept ==> Dominates(p, x, eta)
  {
    DropsSubMultiset(ms, kept, p, eta);
    DropsOnlyDominated(ms, kept, p, eta);
    assert forall x :: x in kept ==> x in multiset(ms);
  }

  /** What `DropsDominated` keeps is a sub-multiset of `ms`. */
  lemma {:induction false} DropsSubMultiset(ms: seq<Individual>, kept: seq<Individual>, p: Individual, eta: real)
    requires SameArity(ms, |p.objectives|) && eta != -1.0
    requires DropsDominated(ms, kept, p, eta)
    ensures |kept| <= |ms| && multiset(kept) <= multiset(ms)
    decreases |ms|
  {
    if |ms| > 0 {
      if |kept| > 0 && kept[0] == ms[0] && DropsDominated(ms[1..], kept[1..], p, eta) {
        DropsSubMultiset(ms[1..], kept[1..], p, eta);
        ConsSub(ms, kept);
      } else {
        DropsSubMultiset(ms[1..], kept, p, eta);
        TailSub(ms, kept);
      }
    }
  }

  lemma ConsSub(ms: seq<Individual>, kept: seq<Individual>)
    requires |ms| > 0 && |kept| > 0 && kept[0] == ms[0] && multiset(kept[1..]) <= multiset(ms[1..])
    ensures multiset(kept) <= multiset(ms)
  {
    assert ms == [ms[0]] + ms[1..];
    assert kept == [kept[0]] + kept[1..];
  }

  lemma TailSub(ms: seq<Individual>, kept: seq<Individual>)
    requires |ms| > 0 && multiset(kept) <= multiset(ms[1..])
    ensures multiset(kept) <= multiset(ms)
  {
    assert ms == [ms[0]] + ms[1..];
  }

  /** Every member `DropsDominated` leaves out is dominated by `p`. */
  lemma {:induction false} DropsOnlyDominated(ms: seq<Individual>, kept: seq<Individual>, p: Individual, eta: real)
    requires SameArity(ms, |p.objectives|) && eta != -1.0
    requires DropsDominated(ms, kept, p, eta)
    ensures forall x :: x in ms && x !in kept ==> Dominates(p, x, eta)
    decreases |ms|
  {
    if |ms| > 0 {
      assert forall x :: x in ms ==> x == ms[0] || x in ms[1..];
      if |kept| > 0 && kept[0] == ms[0] && DropsDominated(ms[1..], kept[1..], p, eta) {
        DropsOnlyDominated(ms[1..], kept[1..], p, eta);
        assert forall x :: x in kept[1..] ==> x in kept;
      } else {
        DropsOnlyDominated(ms[1..], kept, p, eta);
      }
    }
  }


  lemma {:induction false} DropsNothing(ms: seq<Individual>, p: Individual, eta: real)
    requires SameArity(ms, |p.objectives|) && eta != -1.0
    ensures DropsDominated(ms, ms, p, eta)
    decreases |ms|
  {
    if |ms| > 0 {
      DropsNothing(ms[1..], p, eta);
    }
  }

  /** No member dominates another (without relaxation). */
  predicate NonDominated(ms: seq<Individual>)
  {
    (forall i, j :: 0 <= i < |ms| && 0 <= j < |ms| ==> |ms[i].objectives| == |ms[j].objectives|)
    && forall i, j :: 0 <= i < |ms| && 0 <= j < |ms| ==> !Dominates(ms[i], ms[j], 0.0)
  }

  /** No member of `ms` dominates or equals `p`, stated member by member
      from the front. */
  predicate Unrivalled(ms: seq<Individual>, p: Individual)
    requires SameArity(ms, |p.objectives|)
    decreases |ms|
  {
    |ms| == 0 || (!Dominates(ms[0], p, 0.0) && !EqualObj(ms[0], p) && Unrivalled(ms[1..], p))
  }

  lemma {:induction false} UnrivalledMeaning(ms: seq<Individual>, p: Individual)
    requires SameArity(ms, |p.objectives|)
    ensures Unrivalled(ms, p) <==>
      forall k :: 0 <= k < |ms| ==> !Dominates(ms[k], p, 0.0) && !EqualObj(ms[k], p)
    decreases |ms|
  {
    if |ms| > 0 {
      UnrivalledMeaning(ms[1..], p);
      assert forall k :: 1 <= k < |ms| ==> ms[k] == ms[1..][k - 1];
    }
  }

  /** On an archive whose members are mutually non-dominated, the skipped
      member can neither dominate nor equal `p`, so without relaxation
      `add` accepts exactly the candidates no member dominates or equals. */
  lemma AddAcceptsUnrivalled(ms: seq<Individual>, p: Individual)
    requires SameArity(ms, |p.objectives|) && NonDominated(ms)
    ensures Add(ms, p, 0.0).added <==>
      forall k :: 0 <= k < |ms| ==> !Dominates(ms[k], p, 0.0) && !EqualObj(ms[k], p)
  {
    ScanAcceptsUnrivalled(ms, p);
    UnrivalledMeaning(ms, p);
  }

  lemma {:induction false} ScanAcceptsUnrivalled(ms: seq<Individual>, p: Individual)
    requires SameArity(ms, |p.objectives|) && NonDominated(ms)
    ensures Scan(ms, p, 0.0).added <==> Unrivalled(ms, p)
    decreases |ms|
  {
    if |ms| == 0 {
    } else if Dominates(ms[0], p, 0.0) || EqualObj(ms[0], p) {
      ScanRejectsAtHead(ms, p);
    } else if Dominates(p, ms[0], 0.0) && |ms| > 1 {
      NonDominatedSuffix(ms, 2);
      ScanAcceptsUnrivalled(ms[2..], p);
      ScanRemovedStep(ms, p);
    } else {
      NonDominatedSuffix(ms, 1);
      ScanAcceptsUnrivalled(ms[1..], p);
      ScanKeptStep(ms, p);
    }
  }

  lemma ScanRejectsAtHead(ms: seq<Individual>, p: Individual)
    requires SameArity(ms, |p.objectives|) && |ms| > 0
    requires Dominates(ms[0], p, 0.0) || EqualObj(ms[0], p)
    ensures !Scan(ms, p, 0.0).added && !Unrivalled(ms, p)
  {
    if !Dominates(ms[0], p, 0.0) && Dominates(p, ms[0], 0.0) {
      NotEqualWhenDominated(p, ms[0]);
    }
  }

  lemma ScanRemovedStep(ms: seq<Individual>, p: Individual)
    requires SameArity(ms, |p.objectives|) && NonDominated(ms) && |ms| > 1
    requires !Dominates(ms[0], p, 0.0) && Dominates(p, ms[0], 0.0)
    requires Scan(ms[2..], p, 0.0).added <==> Unrivalled(ms[2..], p)
    ensures Scan(ms, p, 0.0).added <==> Unrivalled(ms, p)
  {
    NotEqualWhenDominated(p, ms[0]);
    SkippedIsUnrivalled(ms, p);
    assert ms[1..][1..] == ms[2..];
  }

  lemma ScanKeptStep(ms: seq<Individual>, p: Individual)
    requires SameArity(ms, |p.objectives|) && |ms| > 0
    requires !Dominates(ms[0], p, 0.0) && !EqualObj(ms[0], p)
    requires !Dominates(p, ms[0], 0.0) || |ms| == 1
    requires Scan(ms[1..], p, 0.0).added <==> Unrivalled(ms[1..], p)
    ensures Scan(ms, p, 0.0).added <==> Unrivalled(ms, p)
  {
  }

  lemma NotEqualWhenDominated(p: Individual, m: Individual)
    requires |m.objectives| == |p.objectives| && Dominates(p, m, 0.0)
    ensures !EqualObj(m, p)
  {
    if EqualObj(m, p) {
      EqualObjMeaning(m, p);
      DominatesByObjectives(p, p, m, p, 0.0);
      DominatesIrreflexive(p);
    }
  }

  /** The member after one `p` dominates neither dominates nor equals `p`
      when the archive is mutually non-dominated. */
  lemma SkippedIsUnrivalled(ms: seq<Individual>, p: Individual)
    requires SameArity(ms, |p.objectives|) && NonDominated(ms) && |ms| > 1
    requires Dominates(p, ms[0], 0.0)
    ensures !Dominates(ms[1], p, 0.0) && !EqualObj(ms[1], p)
  {
    assert !Dominates(ms[1], ms[0], 0.0);
    if Dominates(ms[1], p, 0.0) {
      DominatesTransitive(ms[1], p, ms[0]);
    }
    if EqualObj(ms[1], p) {
      EqualObjMeaning(ms[1], p);
      DominatesByObjectives(p, ms[1], ms[0], ms[0], 0.0);
    }
  }

  lemma NonDominatedSuffix(ms: seq<Individual>, d: nat)
    requires NonDominated(ms) && d <= |ms|
    ensures NonDominated(ms[d..])
  {
    forall i, j | 0 <= i < |ms| - d && 0 <= j < |ms| - d
      ensures !Dominates(ms[d..][i], ms[d..][j], 0.0)
    {
      assert ms[d..][i] == ms[i + d] && ms[d..][j] == ms[j + d];
    }
  }

  /** The scan skips the member after a removed one: on the mutually
      non-dominated archive [(2,3), (3,2)], adding (1,1) removes (2,3) only,
      and the archive ends up holding (3,2) next to (1,1), which dominates
      it. */
  lemma SkipKeepsDominatedMember()
    ensures var a := Individual([], [], Options.None, Fin(0.0), [2.0, 3.0]);
            var b := Individual([], [], Options.None, Fin(0.0), [3.0, 2.0]);
            var p := Individual([], [], Options.None, Fin(0.0), [1.0, 1.0]);
            NonDominated([a, b])
            && Add([a, b], p, 0.0) == AddResult(true, [b, p])
            && Dominates(p, b, 0.0)
  {
    var a := Individual([], [], Options.None, Fin(0.0), [2.0, 3.0]);
    var b := Individual([], [], Options.None, Fin(0.0), [3.0, 2.0]);
    var p := Individual([], [], Options.None, Fin(0.0), [1.0, 1.0]);
    DominatesAtZero(a, b);
    DominatesAtZero(b, a);
    DominatesAtZero(p, a);
    DominatesAtZero(p, b);
    DominatesIrreflexive(a);
    DominatesIrreflexive(b);
    assert Dominates(p, a, 0.0) by {
      assert a.objectives[0] > p.objectives[0];
    }
    assert Dominates(p, b, 0.0) by {
      assert b.objectives[0] > p.objectives[0];
    }
    assert [a, b][2..] == [];
  }

  /** A rejection can follow a removal made earlier in the same scan: adding
      (2,2) to [(3,3), (5,0), (1,1)] removes (3,3), skips (5,0), and is then
      rejected by (1,1). */
  lemma RejectAfterRemoval()
    ensures var a := Individual([], [], Options.None, Fin(0.0), [3.0, 3.0]);
            var b := Individual([], [], Options.None, Fin(0.0), [5.0, 0.0]);
            var c := Individual([], [], Options.None, Fin(0.0), [1.0, 1.0]);
            var p := Individual([], [], Options.None, Fin(0.0), [2.0, 2.0]);
            Add([a, b, c], p, 0.0) == AddResult(false, [b, c])
  {
    var a := Individual([], [], Options.None, Fin(0.0), [3.0, 3.0]);
    var b := Individual([], [], Options.None, Fin(0.0), [5.0, 0.0]);
    var c := Individual([], [], Options.None, Fin(0.0), [1.0, 1.0]);
    var p := Individual([], [], Options.None, Fin(0.0), [2.0, 2.0]);
    DominatesAtZero(a, p);
    DominatesAtZero(p, a);
    DominatesAtZero(c, p);
    assert !Dominates(a, p, 0.0) by {
      assert p.objectives[0] < a.objectives[0];
    }
    assert Dominates(p, a, 0.0) by {
      assert a.objectives[0] > p.objectives[0];
    }
    assert Dominates(c, p, 0.0) by {
      assert p.objectives[0] > c.objectives[0];
    }
    assert [a, b, c][2..] == [c];
  }
}
