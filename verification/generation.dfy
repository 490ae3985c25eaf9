/** The bookkeeping of one generation in SMPSO.py and OMOPSO.py:
    `calculate_objectives`, `update_personal_best` and `update_leaders`.
    The fitness functions and the fitness cache are inputs the model does
    not look into. */
module Generation {
  import opened Options
  import opened Individuals
  import opened ObjectiveSort
  import Archives
  import Leaders

  /** `SMPSO.ETA`: the relaxation of the archive of results. */
  const Eta: real := 0.0075

  /** The cache `fitness_archive`, when there is one, maps a position to its
      objective vector. */
  type Cache = Option<map<seq<real>, seq<real>>>

  predicate Hit(x: seq<real>, cache: Cache)
  {
    cache.Some? && x in cache.value
  }

  /** The objective vector of position `x`: the cached one on a hit,
      otherwise every fitness function applied to `x`, in order. */
  function Evaluate(x: seq<real>, fitnesses: seq<seq<real> -> real>, cache: Cache): seq<real>
  {
    if Hit(x, cache) then cache.value[x]
    else seq(|fitnesses|, i requires 0 <= i < |fitnesses| => fitnesses[i](x))
  }

  /** `calculate_objectives()`: every particle gets its objective vector,
      nothing else changes; the cost reported is that of the last particle
      alone, 0 after a cache hit and the population size after an
      evaluation, and 0 for an empty population. */
  method CalculateObjectives(ps: seq<Individual>, fitnesses: seq<seq<real> -> real>, cache: Cache)
    returns (cost: nat, qs: seq<Individual>)
    ensures |qs| == |ps|
    ensures forall k :: 0 <= k < |ps| ==> qs[k] == ps[k].(objectives := Evaluate(ps[k].value, fitnesses, cache))
    ensures forall k :: 0 <= k < |ps| && !Hit(ps[k].value, cache) ==>
      |qs[k].objectives| == |fitnesses|
      && forall i :: 0 <= i < |fitnesses| ==> qs[k].objectives[i] == fitnesses[i](ps[k].value)
    ensures cost == 0 <==> |ps| == 0 || Hit(ps[|ps| - 1].value, cache)
    ensures cost != 0 ==> cost == |ps|
  {
    cost := 0;
    qs := ps;
    var k := 0;
    while k < |qs|
      invariant 0 <= k <= |qs| == |ps|
      invariant forall m :: 0 <= m < k ==> qs[m] == ps[m].(objectives := Evaluate(ps[m].value, fitnesses, cache))
      invariant forall m :: k <= m < |ps| ==> qs[m] == ps[m]
      invariant cost == if k == 0 || Hit(ps[k - 1].value, cache) then 0 else |ps|
    {
      var p := qs[k];
      if cache.Some? && p.value in cache.value {
        qs := qs[k := p.(objectives := cache.value[p.value])];
        cost := 0;
      } else {
        var objectives := seq(|fitnesses|, i requires 0 <= i < |fitnesses| => fitnesses[i](p.value));
        qs := qs[k := p.(objectives := objectives)];
        cost := |ps|;
      }
      k := k + 1;
    }
  }

  // ---------------------------------------------------------------------
  // update_personal_best()

  /** The personal best is replaced by a snapshot of the particle exactly
      when the particle dominates it (`eta = 0`); the new best then dominates
      the old one, and afterwards the particle never dominates its best. */
  function UpdateBest(p: Individual): (r: Individual)
    requires p.best.Some? && |p.objectives| <= |p.best.value.objectives|
    ensures r == p.(best := r.best) && r.best.Some? && |p.objectives| <= |r.best.value.objectives|
    ensures r.best != p.best <==> Dominates(p, p.best.value, 0.0)
    ensures r.best != p.best ==> r.best.value == p && Dominates(r.best.value, p.best.value, 0.0)
    ensures !Dominates(p, r.best.value, 0.0)
  {
    if Dominates(p, p.best.value, 0.0) then
      DominatesIrreflexive(p);
      p.(best := Some(p))
    else p
  }

  /** Every best can be compared with its particle. */
  predicate HasBests(ps: seq<Individual>)
  {
    forall k :: 0 <= k < |ps| ==> ps[k].best.Some? && |ps[k].objectives| <= |ps[k].best.value.objectives|
  }

  /** `update_personal_best()` over the swarm: afterwards no particle
      dominates its personal best, and a best changed only where the
      particle dominated the old one. */
  function UpdatePersonalBests(ps: seq<Individual>): (r: seq<Individual>)
    requires HasBests(ps)
    ensures |r| == |ps|
    ensures forall k :: 0 <= k < |ps| ==> r[k] == ps[k].(best := r[k].best)
    ensures HasBests(r)
    ensures forall k :: 0 <= k < |ps| ==> !Dominates(ps[k], r[k].best.value, 0.0)
    ensures forall k :: 0 <= k < |ps| && r[k].best != ps[k].best ==> Dominates(ps[k], ps[k].best.value, 0.0)
  {
    var r := seq(|ps|, k requires 0 <= k < |ps| => UpdateBest(ps[k]));
    assert forall k :: 0 <= k < |ps| ==> ps[k].best.Some? && r[k] == UpdateBest(ps[k]);
    r
  }

  // ---------------------------------------------------------------------
  // update_leaders()

  /** The bounded leader archive and the archive of results. */
  datatype Archives2 = Archives2(leaders: seq<Individual>, results: seq<Individual>)

  /** One iteration of `update_leaders()` (and of `init_leaders()`): a copy
      of `p` is offered to the leader archive of capacity `size`, and to the
      archive of results only when the leader archive accepted it. */
  function Offer(s: Archives2, size: int, p: Individual): (r: Archives2)
    requires SameArity(s.leaders, |p.objectives|) && SameArity(s.results, |p.objectives|)
    ensures r.leaders == Leaders.LeaderAdd(s.leaders, size, p).members
    ensures !Leaders.LeaderAdd(s.leaders, size, p).added ==> r.results == s.results
    ensures Leaders.LeaderAdd(s.leaders, size, p).added ==> r.results == Archives.Add(s.results, p, Eta).members
    ensures SameArity(r.leaders, |p.objectives|) && SameArity(r.results, |p.objectives|)
    ensures forall x :: x in r.results ==> x in s.results || x == p
  {
    var l := Leaders.LeaderAdd(s.leaders, size, p);
    if l.added then
      var a := Archives.Add(s.results, p, Eta);
      KeptMembers(s.results, p, Eta);
      Archives2(l.members, a.members)
    else Archives2(l.members, s.results)
  }

  /** The members `Archive.add` leaves are old members or `p`. */
  lemma KeptMembers(ms: seq<Individual>, p: Individual, eta: real)
    requires SameArity(ms, |p.objectives|) && eta != -1.0
    ensures forall x :: x in Archives.Add(ms, p, eta).members ==> x in ms || x == p
  {
    var a := Archives.Add(ms, p, eta);
    if a.added {
      Archives.DropsDominatedMembers(ms, a.members[..|a.members| - 1], p, eta);
      assert a.members == a.members[..|a.members| - 1] + [p];
    } else {
      Archives.DropsDominatedMembers(ms, a.members, p, eta);
    }
  }

  /** All particles and archive members have `n` objectives. */
  predicate Uniform(ps: seq<Individual>, s: Archives2, n: nat)
  {
    SameArity(ps, n) && SameArity(s.leaders, n) && SameArity(s.results, n)
  }

  /** `update_leaders()`: every particle offered in turn. The leader archive
      stays within its capacity, and the archive of results only gains
      particles of this generation. */
  function UpdateLeaders(ps: seq<Individual>, s: Archives2, size: int, n: nat): (r: Archives2)
    requires Uniform(ps, s, n)
    ensures SameArity(r.leaders, n) && SameArity(r.results, n)
    ensures |s.leaders| <= size ==> |r.leaders| <= size
    ensures forall x :: x in r.results ==> x in s.results || x in ps
    decreases |ps|
  {
    if |ps| == 0 then s
    else
      var t := Offer(s, size, ps[0]);
      var r := UpdateLeaders(ps[1..], t, size, n);
      assert forall x :: x in ps[1..] ==> x in ps;
      r
  }

  /** Leaders come from the old leaders and the particles: every leader
      after `update_leaders()`, up to its crowding value, was a leader
      before or is one of the particles. */
  lemma {:induction false} LeadersFromParticles(ps: seq<Individual>, s: Archives2, size: int, n: nat)
    requires Uniform(ps, s, n)
    ensures forall x :: x in Strips(UpdateLeaders(ps, s, size, n).leaders) ==>
      x in Strips(s.leaders) || x in Strips(ps)
    decreases |ps|
  {
    if |ps| > 0 {
      var t := Offer(s, size, ps[0]);
      LeadersFromParticles(ps[1..], t, size, n);
      OfferedLeaders(s, size, ps[0]);
      Chain(Strips(s.leaders), Strips(t.leaders), Strips(UpdateLeaders(ps[1..], t, size, n).leaders), ps);
    }
  }

  /** Set bookkeeping of `LeadersFromParticles`: what the first offer and
      the remaining particles contribute together comes from the particles. */
  lemma Chain(before: seq<Individual>, mid: seq<Individual>, after: seq<Individual>, ps: seq<Individual>)
    requires |ps| > 0
    requires forall x :: x in mid ==> x in before || x == Strip(ps[0])
    requires forall x :: x in after ==> x in mid || x in Strips(ps[1..])
    ensures forall x :: x in after ==> x in before || x in Strips(ps)
  {
    assert Strips(ps) == [Strip(ps[0])] + Strips(ps[1..]);
  }

  /** Up to crowding values, the leaders after one offer are old leaders
      or the particle offered. */
  lemma OfferedLeaders(s: Archives2, size: int, p: Individual)
    requires SameArity(s.leaders, |p.objectives|) && SameArity(s.results, |p.objectives|)
    ensures forall x :: x in Strips(Offer(s, size, p).leaders) ==> x in Strips(s.leaders) || x == Strip(p)
  {
    var ms := Offer(s, size, p).leaders;
    assert multiset(Strips(ms)) <= multiset(Strips(s.leaders + [p]));
    assert Strips(s.leaders + [p]) == Strips(s.leaders) + [Strip(p)];
    forall x | x in Strips(ms)
      ensures x in Strips(s.leaders) || x == Strip(p)
    {
      assert x in multiset(Strips(ms));
      assert x in multiset(Strips(s.leaders) + [Strip(p)]);
    }
  }

  /** A particle that no leader dominates or equals, and that no member of
      the archive of results dominates or equals, reaches that archive as
      its last member. */
  lemma UnrivalledReachesResults(s: Archives2, size: int, p: Individual)
    requires SameArity(s.leaders, |p.objectives|) && SameArity(s.results, |p.objectives|)
    requires forall k :: 0 <= k < |s.leaders| ==> !Dominates(s.leaders[k], p, 0.0) && !EqualObj(s.leaders[k], p)
    requires forall k :: 0 <= k < |s.results| ==> !Dominates(s.results[k], p, Eta) && !EqualObj(s.results[k], p)
    ensures var r := Offer(s, size, p).results; |r| > 0 && r[|r| - 1] == p
  {
  }
}
