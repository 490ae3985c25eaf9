# Multi-objective particle swarms of evogil, in Dafny

This project models the particle-swarm core of evogil and proves properties of that model. The core covers the two multi-objective particle-swarm optimisers, SMPSO and OMOPSO, and the helper modules they and their drivers rely on:

- the Pareto utilities of `ea_utils.py`;
- the variation and ranking helpers of `drivertools.py`.

A swarm is a sequence of particles (`Individuals.Individual`). Each particle has:

- a position;
- a velocity;
- an optional personal best (a snapshot of the particle);
- a crowding value;
- an objective vector.

A generation (`step()`, SMPSO.py:87-114 and OMOPSO.py:71-92) does the following, in this order:

1. computes new velocities from a guide chosen by a crowding tournament;
2. moves every particle, bouncing off the bounds;
3. applies the mutation driver. As written it mutates nothing (see "## Findings"). As intended, it mutates the first third of the swarm uniformly and, when the progress is truthy, the second third non-uniformly;
4. evaluates the objectives;
5. offers every particle to two archives:
   - a bounded leader archive, pruned by crowding distance;
   - an archive of results, kept with a relaxed dominance (`eta = 0.0075`);
6. updates the personal bests;
7. recomputes the crowding values.

`init()` (SMPSO.py:70-77) evaluates the objectives, offers every particle to the two archives, sets the personal bests and computes the crowding values.

Modules, in dependency order:

| module | file | what it holds |
|---|---|---|
| `Options` | options.dfy | `Option` for results that may be absent |
| `Individuals` | individuals.dfy | particles, the crowding value (`Inf` or a finite real), relaxed dominance and objective equality |
| `Archives` | archives.dfy | `Archive.add`, as a recursive scan and as the in-place loop the code runs |
| `ObjectiveSort` | objective_sort.dfy | the stable sort by one objective used by the crowding computation |
| `Leaders` | leaders.dfy | crowding distance, the leader archive's `add` and `prune`, the crowding tournament |
| `Kinematics` | kinematics.dfy | `move`, both `compute_speed`s, the uniform and non-uniform mutations, the mutation drivers |
| `Generation` | generation.dfy | `calculate_objectives`, `update_personal_best`, `update_leaders` |
| `Pareto` | pareto.dfy | `domination_cmp`, `dominates`, the distances, `weighted_choice`, `split_front` |
| `Ranking` | ranking.dfy | `paretofront_layers`, `rank`, `get_indivs_inorder` |
| `DriverTools` | drivertools.dfy | `old_mutate`, `old_crossover`, `old_crossover_triangular`, `old_crossover_beta` |

Modelling conventions:

- **Draws are inputs.** Every random draw is a parameter of the operation that consumes it, indexed by the coordinate or particle it is drawn for. This covers `random.random`, `uniform`, `gauss`, `sample`, `betavariate` and `triangular`.
- **Reals.** Python floats are modelled as Dafny reals.
- **Infinity.** Python's `float('inf')` appears only as a crowding value, modelled as `Individuals.Crowd.Inf`.
- **Python errors.** Where the Python code raises, the model either returns `None` or states the condition as a precondition:
  - a precondition is used when the code's own callers always meet the condition;
  - `None` is used when the failure is part of the operation's contract (`split_front`, `old_crossover_beta`, `weighted_choice`).

### Where the code departs from the usual algorithm (the model follows the code)

- **`Archive.add` skips a member after each removal.**
  - The code deletes the dominated member at index `i` and then still advances `i`. The member that moves into position `i` is never examined (SMPSO.py:323-334).
  - A dominated member can therefore survive an insertion.
  - `Archives.Add` models the skip. `Archives.SkipKeepsDominatedMember` shows a dominated member surviving because of it.
- **The interior crowding gap.**
  - The crowding distance of NSGA-II (Deb et al., 2002), which SMPSO and OMOPSO take over, adds for an interior member the gap between its two neighbours, `obj[j+1] - obj[j-1]`, over the spread.
  - The code adds `obj[j] - obj[j-1]`, the gap to the predecessor alone (SMPSO.py:370-375). `Leaders.Interior` follows the code.
- **The leader tournament prefers the more crowded leader.**
  - SMPSO (Nebro et al., 2009) chooses a guide by a binary tournament on the crowding distance that prefers the larger distance, that is the less crowded leader.
  - The code returns the sampled leader with the smallest crowding value, which is the most crowded one (SMPSO.py:274-276). `Leaders.Tournament` follows the code.
- **`prune` evicts an extreme member.**
  - A crowding-bounded archive, as in SMPSO, drops the member with the smallest crowding distance when it overflows.
  - The code evicts the first member with the largest crowding value. After the crowding computation that member is the head of the list sorted by the last objective, whose crowding is infinite (SMPSO.py:348-351).
  - `Leaders.PruneEvictsHead` and `Leaders.PruneEvictsExtreme` state this.

## Model

| member | source | states |
|---|---|---|
| Individuals.NewIndividual | algorithms/SMPSO/SMPSO.py:279-285 | a new particle has the given position, a zero velocity of the same length, no personal best, crowding 0 and no objectives |
| Individuals.DomScanMeaning | algorithms/SMPSO/SMPSO.py:295-303 | the loop of `dominates` from index `i` answers true exactly when every later objective of the other particle is at least the relaxed one and some is strictly greater (or a strict one was already found) |
| Individuals.DominatesMeaning | algorithms/SMPSO/SMPSO.py:295-303 | `x.dominates(y, eta)` holds iff for every objective of `x`, `y`'s value is no less than `x`'s divided by `1 + eta`, and strictly greater for at least one |
| Individuals.DominatesAtZero | algorithms/SMPSO/SMPSO.py:295-303 | without relaxation, dominance is the usual Pareto dominance for minimisation: nowhere worse and somewhere strictly better |
| Individuals.DominatesIrreflexive | algorithms/SMPSO/SMPSO.py:295-303 | without relaxation no particle dominates itself |
| Individuals.DominatesAsymmetric | algorithms/SMPSO/SMPSO.py:295-303 | without relaxation, two particles never dominate each other |
| Individuals.DominatesTransitive | algorithms/SMPSO/SMPSO.py:295-303 | without relaxation, dominance is transitive |
| Individuals.RelaxedSelfDominance | algorithms/SMPSO/SMPSO.py:295-303 | with a positive relaxation and positive objectives, a particle dominates itself, so the archive of results rejects a copy of a member |
| Individuals.DominatesByObjectives | algorithms/SMPSO/SMPSO.py:295-303 | dominance depends on the objective vectors alone, not on position, velocity, best or crowding |
| Individuals.EqScanMeaning | algorithms/SMPSO/SMPSO.py:308-312 | the loop of `equal_obj` from index `i` answers true iff the two objective suffixes agree |
| Individuals.EqualObjMeaning | algorithms/SMPSO/SMPSO.py:308-312 | `equal_obj` holds iff the first particle's objectives are a prefix of the second's |
| Individuals.EqualObjReflexive | algorithms/SMPSO/SMPSO.py:308-312 | every particle has equal objectives with itself |
| Individuals.EqualObjSymmetric | algorithms/SMPSO/SMPSO.py:308-312 | for equal-length objective vectors, `equal_obj` is symmetric |
| Individuals.CrowdLeLt | algorithms/SMPSO/SMPSO.py:274-276 | the comparison of crowding values, `inf` included, chains: `a <= b < c` gives `a < c` |
| Individuals.CrowdLtLe | algorithms/SMPSO/SMPSO.py:348-351 | the comparison of crowding values chains: `a < b <= c` gives `a < c` |
| Archives.Scan | algorithms/SMPSO/SMPSO.py:323-334 | the scan drops only members the newcomer dominates; it rejects only at a member that dominates or equals the newcomer |
| Archives.Add | algorithms/SMPSO/SMPSO.py:323-334 | when `add` accepts, the newcomer is appended last after the kept members and every dropped member is dominated by it; when it rejects, some member dominates or equals it |
| Archives.AddInPlace | algorithms/SMPSO/SMPSO.py:323-334 | the in-place index loop that deletes while iterating computes exactly the acceptance flag and the archive of `Archives.Add` |
| Archives.DropsDominatedMembers | algorithms/SMPSO/SMPSO.py:325-329 | the kept members are a sub-multiset of the old archive, and every member that disappeared is dominated by the newcomer |
| Archives.DropsNothing | algorithms/SMPSO/SMPSO.py:323-334 | keeping the archive as it is satisfies the dropping discipline of `add` |
| Archives.UnrivalledMeaning | algorithms/SMPSO/SMPSO.py:323-334 | a newcomer is unrivalled iff no member dominates it or has equal objectives |
| Archives.AddAcceptsUnrivalled | algorithms/SMPSO/SMPSO.py:323-334 | on a mutually non-dominated archive without relaxation, `add` accepts exactly an unrivalled newcomer, even though it skips members |
| Archives.ScanAcceptsUnrivalled | algorithms/SMPSO/SMPSO.py:323-334 | the scan itself accepts exactly an unrivalled newcomer on a mutually non-dominated archive |
| Archives.SkipKeepsDominatedMember | algorithms/SMPSO/SMPSO.py:325-329 | concrete case `[2,3], [3,2]` plus `[1,1]`: the archive becomes `[[3,2], [1,1]]`, keeping `[3,2]` although `[1,1]` dominates it |
| Archives.RejectAfterRemoval | algorithms/SMPSO/SMPSO.py:325-331 | concrete case: adding `[2,2]` to `[3,3], [5,0], [1,1]` removes `[3,3]`, skips `[5,0]` and is rejected by `[1,1]`, and the removal stays |
| ObjectiveSort.InsertPermutes | algorithms/SMPSO/SMPSO.py:361 | one insertion step of the sort adds exactly the inserted particle |
| ObjectiveSort.InsertSorted | algorithms/SMPSO/SMPSO.py:361 | inserting into a list sorted by objective `i` keeps it sorted |
| ObjectiveSort.SortByPermutes | algorithms/SMPSO/SMPSO.py:361 | `sort(key=objectives[i])` is a permutation |
| ObjectiveSort.SortBySorted | algorithms/SMPSO/SMPSO.py:361 | the sort leaves the list ascending in objective `i` |
| ObjectiveSort.SortByStable | algorithms/SMPSO/SMPSO.py:361 | the sort is stable: the particles sharing one key keep their relative order |
| ObjectiveSort.StripsSortBy | algorithms/SMPSO/SMPSO.py:361 | up to crowding values, the sort is a permutation |
| Leaders.Reset | algorithms/SMPSO/SMPSO.py:354-355 | resetting sets every crowding value to 0 and changes nothing else |
| Leaders.EndsFacts | algorithms/SMPSO/SMPSO.py:365-366 | the first and last particles of the sorted list get an infinite crowding value, and nothing else changes |
| Leaders.StepsEffect | algorithms/SMPSO/SMPSO.py:368-377 | the inner loop sets each interior particle to its old crowding plus its gap over the objective's spread, or to infinity for a zero spread, and touches only the interior |
| Leaders.PassAt | algorithms/SMPSO/SMPSO.py:360-377 | one pass of the crowding loop for objective `i` sorts, gives the ends infinity and the interior its gap |
| Leaders.PassOrder | algorithms/SMPSO/SMPSO.py:360-377 | after a pass the list is sorted by objective `i` and its ends are infinite |
| Leaders.PassesOrder | algorithms/SMPSO/SMPSO.py:358-377 | after all passes the list is sorted by the last objective and its ends are infinite |
| Leaders.Crowding | algorithms/SMPSO/SMPSO.py:353-377 | crowding fails exactly on an empty archive, where the code indexes the first member; otherwise it permutes the archive, changing only crowding values, and leaves it sorted by the last objective with infinite ends |
| Leaders.CrowdingBound | algorithms/SMPSO/SMPSO.py:353-377 | every finite crowding value lies between 0 and the number of objectives |
| Leaders.CrowdingExtremes | algorithms/SMPSO/SMPSO.py:360-366 | for every objective, a particle with the least value and one with the greatest value end with infinite crowding |
| Leaders.CrowdingZeroSpread | algorithms/SMPSO/SMPSO.py:369-373 | when all particles agree on some objective, every crowding value ends infinite |
| Leaders.FirstMax | algorithms/SMPSO/SMPSO.py:350 | `max(..., key=crowd_val)` picks a largest crowding value, the first one among ties |
| Leaders.PruneEvictsHead | algorithms/SMPSO/SMPSO.py:348-351 | the first largest crowding value is always at the head, so `prune` evicts the head, whose crowding is infinite and whose last objective is the smallest |
| Leaders.PruneKeeps | algorithms/SMPSO/SMPSO.py:348-351 | `prune` removes exactly one particle and leaves the rest sorted by the last objective |
| Leaders.PruneArity | algorithms/SMPSO/SMPSO.py:348-351 | pruning keeps every objective vector's length |
| Leaders.PruneEvictsLeastLast | algorithms/SMPSO/SMPSO.py:348-351 | the particle evicted is the one with the unique least last objective |
| Leaders.PruneEvictsExtreme | algorithms/SMPSO/SMPSO.py:348-351 | concrete case `[1,3], [2,2], [3,1]`: pruning evicts the extreme `[3,1]` and keeps the interior `[2,2]` |
| Leaders.LeaderAdd | algorithms/SMPSO/SMPSO.py:342-346 | the leader archive accepts exactly when `Archive.add` without relaxation does, never exceeds its capacity, and only holds old members or the newcomer |
| Leaders.AddThenEvict | algorithms/SMPSO/SMPSO.py:342-346 | concrete case: with capacity 1 the newcomer is reported as added, yet pruning evicts it again |
| Leaders.MinFrom | algorithms/SMPSO/SMPSO.py:274-276 | the scan of `min` ends on a sample position whose crowding value is the smallest, with every earlier position strictly larger |
| Leaders.Tournament | algorithms/SMPSO/SMPSO.py:270-276 | the winner is a sampled leader with the smallest crowding value among the sampled ones, and among equals the one sampled first, as Python's `min` returns |
| Leaders.TournamentTie | algorithms/SMPSO/SMPSO.py:274-276 | of two sampled leaders with equal crowding values (both infinite, say), the first sampled wins |
| Leaders.Guide | algorithms/SMPSO/SMPSO.py:163-167 | the only leader when there is one; otherwise a sampled leader, the first one sampled among those with the smallest crowding value |
| Kinematics.Clamp | algorithms/SMPSO/SMPSO.py:143-145 | the clamped coordinate lies inside well-ordered bounds and equals the coordinate when that is inside; a coordinate below the lower bound goes to the lower bound, one above the upper bound to the upper bound |
| Kinematics.Step | algorithms/SMPSO/SMPSO.py:143-150 | a coordinate moved by its velocity ends inside its bounds, and its velocity flips exactly when a bound was hit |
| Kinematics.StepFree | algorithms/SMPSO/SMPSO.py:143-150 | a move that stays inside the bounds keeps the velocity |
| Kinematics.StepBounce | algorithms/SMPSO/SMPSO.py:143-150 | a move past a bound stops at the bound and reverses the velocity |
| Kinematics.BounceReturns | algorithms/SMPSO/SMPSO.py:143-150 | after a bounce off the upper bound, the next step moves back inside by the same distance |
| Kinematics.MoveParticle | algorithms/SMPSO/SMPSO.py:140-150 | one particle's move changes only position and velocity; coordinates end inside well-ordered bounds, and a velocity component keeps its size and is reversed exactly when the clamp acted |
| Kinematics.Move | algorithms/SMPSO/SMPSO.py:140-150 | `move()` moves every particle independently |
| Kinematics.MoveKeepsInside | algorithms/SMPSO/SMPSO.py:140-150 | after `move()` every coordinate of every particle lies inside its well-ordered bounds |
| Kinematics.Constriction | algorithms/SMPSO/SMPSO.py:172-177 | the constriction coefficient is 1 for `c1 + c2 <= 4`; above 4 the formula as written gives a value strictly between -1 and 0 |
| Kinematics.SmpsoComponent | algorithms/SMPSO/SMPSO.py:181-188 | as written, the speed clamp leaves every component at `+delta` or `-delta`, and at `+delta` exactly when the constricted update reaches `delta` |
| Kinematics.SmpsoClampFlips | algorithms/SMPSO/SMPSO.py:185-188 | as written, a particle at rest on its best and its guide gets speed `-0.5`, and so does an update of `0.1`, which is already inside `[-delta, delta]` |
| Kinematics.BoundedComponent | algorithms/SMPSO/SMPSO.py:185-188 | the intended clamp keeps a component inside `[-delta, delta]` and leaves an in-range component unchanged |
| Kinematics.ClampsAgreeAbove | algorithms/SMPSO/SMPSO.py:185-188 | the code's clamp and the intended one agree exactly on updates at or above `delta` or at or below `-delta` |
| Kinematics.SmpsoVelocity | algorithms/SMPSO/SMPSO.py:153-188 | SMPSO's speed update for one particle changes only its velocity, and each component it updates ends at `+0.5` or `-0.5` |
| Kinematics.SmpsoParticle | algorithms/SMPSO/SMPSO.py:160-188 | one particle's update, guided by the leader its sample selects, leaves each component at `+0.5` or `-0.5` |
| Kinematics.SmpsoSpeeds | algorithms/SMPSO/SMPSO.py:153-188 | SMPSO's `compute_speed()` changes only velocities, and every updated component ends at `+0.5` or `-0.5` |
| Kinematics.OmopsoVelocity | algorithms/OMOPSO/OMOPSO.py:132-146 | OMOPSO's speed update changes only the velocity components below the dimension count |
| Kinematics.OmopsoAtRest | algorithms/OMOPSO/OMOPSO.py:141-146 | a particle sitting on its best and its guide has its velocity scaled by `W`, so `W` in `[0.1, 0.5]` at least halves it |
| Kinematics.OmopsoUnbounded | algorithms/OMOPSO/OMOPSO.py:143-146 | OMOPSO bounds no speed: a particle at rest one unit from its best and its guide gets speed 2 with `C1 = C2 = 2` and draws 0.5 |
| Kinematics.OmopsoParticle | algorithms/OMOPSO/OMOPSO.py:132-146 | one particle is updated against some leader, and only its velocity changes |
| Kinematics.OmopsoSpeeds | algorithms/OMOPSO/OMOPSO.py:132-146 | OMOPSO's `compute_speed()` changes only velocities, each particle updated against some leader |
| Kinematics.MutateCoord | algorithms/SMPSO/SMPSO.py:231-238 | a coordinate spared by its coin is unchanged; a mutated one ends inside well-ordered bounds, at the shifted value when that is inside, and otherwise at the bound it crossed |
| Kinematics.Mutate | algorithms/SMPSO/SMPSO.py:231-238 | `Mutation.__call__` changes only the position; spared coordinates keep their value, and a mutated one is the shifted value clamped into its bounds |
| Kinematics.UniformAmount | algorithms/SMPSO/SMPSO.py:245-246 | the uniform mutation moves a coordinate by at most half the perturbation either way, and not at all for perturbation 0 |
| Kinematics.UniformZeroPerturbation | algorithms/SMPSO/SMPSO.py:241-246 | a uniform mutation with perturbation 0 leaves an in-bounds particle unchanged, whatever the coins |
| Kinematics.NonUniformAmount | algorithms/SMPSO/SMPSO.py:256-267 | the non-uniform mutation moves towards the upper bound for a draw below 0.5 and towards the lower otherwise, never leaving the bounds |
| Kinematics.ShrinksUp | algorithms/SMPSO/SMPSO.py:263-267 | `delta(y)` for a non-negative distance `y` lies in `[0, y]` |
| Kinematics.ShrinksDown | algorithms/SMPSO/SMPSO.py:263-267 | `delta(y)` for a non-positive distance `y` lies in `[y, 0]` |
| Kinematics.Progress | algorithms/SMPSO/SMPSO.py:96 | the progress value is absent exactly without a non-zero budget; for a positive budget it is the spent fraction capped to `[0, 1]`, and 1 exactly when the budget is spent |
| Kinematics.Third | algorithms/SMPSO/SMPSO.py:206 | `int(pop_len / 3)` is the largest `r` with `3 r <= pop_len` |
| Kinematics.EagerMutationDriver | algorithms/SMPSO/SMPSO.py:204-219 | the intended driver mutates the first third uniformly and, when the progress is truthy, the second third non-uniformly; the other particles stay as they were and only positions change |
| Kinematics.LazyDriverSkipsMutation | algorithms/SMPSO/SMPSO.py:210-219 | concrete case: three particles at 0.5 in `[0, 1]` and a certain mutation of amount 0.1; as written the first particle stays at 0.5, where the intended driver moves it to 0.6 |
| Generation.CalculateObjectives | algorithms/SMPSO/SMPSO.py:129-138 | every particle gets its cached or freshly evaluated objective vector, nothing else changes, and the cost reported is that of the last particle alone |
| Generation.UpdateBest | algorithms/SMPSO/SMPSO.py:116-121 | the personal best is replaced by the particle exactly when the particle dominates it, and afterwards the particle never dominates its best |
| Generation.UpdatePersonalBests | algorithms/SMPSO/SMPSO.py:116-121 | after `update_personal_best()` no particle dominates its best, and a best changed only where the particle dominated the old one |
| Generation.Offer | algorithms/SMPSO/SMPSO.py:123-127 | a particle reaches the archive of results only when the leader archive accepted it, and the results then gain only that particle |
| Generation.KeptMembers | algorithms/SMPSO/SMPSO.py:323-334 | after `Archive.add` the archive holds only old members or the newcomer |
| Generation.UpdateLeaders | algorithms/SMPSO/SMPSO.py:123-127 | `update_leaders()` keeps the leader archive within capacity, and the results gain only particles of this swarm |
| Generation.LeadersFromParticles | algorithms/SMPSO/SMPSO.py:123-127 | every leader after `update_leaders()`, up to crowding, was a leader before or is a particle |
| Generation.UnrivalledReachesResults | algorithms/SMPSO/SMPSO.py:123-127 | a particle no leader or result rivals ends as the last member of the archive of results |
| Pareto.CmpFromMeaning | algorithms/utils/ea_utils.py:53-60 | the loop of `domination_cmp` answers 1, -1 or 0, and 1 (resp. -1) exactly when the first (resp. second) vector is nowhere greater and somewhere smaller on the zipped prefix |
| Pareto.DominationCmp | algorithms/utils/ea_utils.py:47-60 | `domination_cmp` is 1 exactly when `xs` dominates `ys` for minimisation on the zipped prefix, -1 exactly when `ys` dominates `xs`, and 0 otherwise |
| Pareto.DominationCmpAntisymmetric | algorithms/utils/ea_utils.py:47-60 | swapping the arguments negates the comparison |
| Pareto.Dominates | algorithms/utils/ea_utils.py:38-44 | `dominates` is Pareto dominance for minimisation on the zipped prefix |
| Pareto.DominatesIrreflexive | algorithms/utils/ea_utils.py:38-44 | no vector dominates itself |
| Pareto.DominatesTransitive | algorithms/utils/ea_utils.py:38-44 | dominance between equal-length vectors is transitive |
| Pareto.DominatesMatchesIndividuals | algorithms/utils/ea_utils.py:38-44 | the utility's `dominates` agrees with the particles' unrelaxed `dominates` |
| Pareto.SquareSign | algorithms/utils/ea_utils.py:27-28 | a square is non-negative and zero exactly for zero |
| Pareto.SqrDistance | algorithms/utils/ea_utils.py:27-28 | the squared distance is never negative |
| Pareto.SqrDistanceZero | algorithms/utils/ea_utils.py:27-28 | the squared distance is zero exactly when the vectors agree on the zipped prefix |
| Pareto.EuclidDistance | algorithms/utils/ea_utils.py:31-35 | the distance is the sentinel 9999999 exactly for different lengths or empty vectors, and otherwise the root of a square that is zero exactly for equal vectors |
| Pareto.PickFrom | algorithms/utils/ea_utils.py:138-143 | the scan returns the first index whose running total passes `r`, or nothing when no index does |
| Pareto.WeightedChoice | algorithms/utils/ea_utils.py:132-143 | `weighted_choice` returns the first index whose running total passes the draw, and fails exactly when none does |
| Pareto.ZeroWeightNeverChosen | algorithms/utils/ea_utils.py:132-143 | a choice with weight 0 is never returned |
| Pareto.RunningMonotone | algorithms/utils/ea_utils.py:137-141 | with non-negative weights the running total never decreases |
| Pareto.ChoiceAtTotal | algorithms/utils/ea_utils.py:132-143 | a draw below the total always chooses; a draw equal to the total reaches the failing assertion |
| Pareto.SplitShape | algorithms/utils/ea_utils.py:150-161 | the loop's groups and current group together are the front read so far, in order |
| Pareto.SplitTight | algorithms/utils/ea_utils.py:150-161 | inside each group no step exceeds `epsilon` |
| Pareto.SplitGaps | algorithms/utils/ea_utils.py:150-161 | a group has been closed exactly when some point is a gap, and the first group is empty exactly when the first point is past `epsilon` |
| Pareto.SplitStarts | algorithms/utils/ea_utils.py:150-161 | every group after the first, the open one included, starts at a point whose x exceeds the previous x by more than `epsilon` |
| Pareto.SplitFront | algorithms/utils/ea_utils.py:150-166 | as written, `split_front` fails exactly when no step exceeds `epsilon` |
| Pareto.SplitFrontDropsRepeatedGroup | algorithms/utils/ea_utils.py:163-164 | concrete case: a last group equal by value to the one before it is dropped, so the groups no longer cover the front |
| Pareto.SplitFrontFixed | algorithms/utils/ea_utils.py:150-166 | the corrected split fails exactly when no step exceeds `epsilon`; otherwise its groups concatenate to the front, each group is tight, every group after the first is non-empty and starts at a step larger than `epsilon` |
| Pareto.SplitFrontAgreesOnIncreasing | algorithms/utils/ea_utils.py:163-164 | on a front with strictly increasing first coordinates the code and the corrected split agree |
| Ranking.PartMembers | algorithms/utils/ea_utils.py:76-81 | the filtered list holds exactly the particles whose flag has the given value |
| Ranking.PartSplits | algorithms/utils/ea_utils.py:76-81 | the two filters together are a permutation of the list |
| Ranking.PartKeepsOrder | algorithms/utils/ea_utils.py:76-81 | each filter keeps the list's order |
| Ranking.PicksCompose | algorithms/utils/ea_utils.py:79-81 | order-preserving selections compose |
| Ranking.DomCountZero | algorithms/utils/ea_utils.py:73-75 | a particle's domination counter is zero exactly when no particle dominates it |
| Ranking.Zeros | algorithms/utils/ea_utils.py:72-78 | the counters select exactly the undominated particles |
| Ranking.Front | algorithms/utils/ea_utils.py:76-78 | the yielded layer holds exactly the particles no other one dominates |
| Ranking.Rest | algorithms/utils/ea_utils.py:79-81 | the carried-over list holds exactly the dominated particles, and with the layer it is a permutation of the list |
| Ranking.Minimal | algorithms/utils/ea_utils.py:72-78 | a non-empty list with equal-length vectors has an undominated particle |
| Ranking.FrontNonEmpty | algorithms/utils/ea_utils.py:72-81 | each round yields a non-empty layer and strictly shrinks the list, so the loop ends |
| Ranking.DominatedByFront | algorithms/utils/ea_utils.py:72-81 | every carried-over particle is dominated by a particle of the yielded layer |
| Ranking.LayerStep | algorithms/utils/ea_utils.py:72-81 | putting the current layer in front of the later ones keeps every layer property |
| Ranking.Layers | algorithms/utils/ea_utils.py:63-81 | the layers are a partition of the list into non-empty mutually non-dominated sets, and each member of a later layer is dominated by a member of the previous one |
| Ranking.LayersKeepOrder | algorithms/utils/ea_utils.py:63-81 | each layer keeps the input's order |
| Ranking.Rank | algorithms/base/drivertools.py:64-76 | `rank` is a permutation in which no particle dominates one placed before it |
| Ranking.RankOrdered | algorithms/base/drivertools.py:64-76 | concatenating the layers gives that order |
| Ranking.PrefixOrdered | algorithms/base/drivertools.py:70-76 | an undominated layer put before an ordered tail keeps the order |
| Ranking.ObjectivesDominate | algorithms/base/drivertools.py:82-86 | dominance on the fitness vectors is being nowhere worse and somewhere better on the fitness functions |
| Ranking.IndivsInorder | algorithms/base/drivertools.py:79-88 | `get_indivs_inorder` permutes the population so that no individual is nowhere worse and somewhere better than one placed before it |
| DriverTools.Interpolate | algorithms/base/drivertools.py:30-34 | a point a fraction in `[0, 1]` of the way between two values lies between them |
| DriverTools.OldMutate | algorithms/base/drivertools.py:6-11 | the child has the zipped length; a coordinate keeps its value when its coin fails; otherwise it is the gaussian draw when that is inside its dimension, and the bound the draw crossed when it is not |
| DriverTools.OldMutateExtremes | algorithms/base/drivertools.py:6-11 | probability 0 returns the vector unchanged and probability 1 clamps every draw |
| DriverTools.OldCrossover | algorithms/base/drivertools.py:30-34 | each child coordinate lies between its parents' coordinates and equals the first parent's for a zero draw |
| DriverTools.OldCrossoverSameParents | algorithms/base/drivertools.py:30-34 | crossing a parent with itself returns it |
| DriverTools.OldCrossoverTriangular | algorithms/base/drivertools.py:37-42 | each child coordinate lies between its parents' coordinates |
| DriverTools.TriangularSymmetric | algorithms/base/drivertools.py:37-42 | the triangular child does not depend on the order of the parents |
| DriverTools.OldCrossoverBeta | algorithms/base/drivertools.py:45-53 | the beta crossover fails exactly when a zipped dimension is degenerate or its shape is not positive, and otherwise places each child coordinate between its parents' |
| DriverTools.BetaMatchesTriangular | algorithms/base/drivertools.py:45-53 | the beta crossover agrees with the triangular one for the same fraction |

The same code appears in OMOPSO.py as in SMPSO.py for these parts, and the rows above cite SMPSO.py for them:

- the particles: `Individual`, `dominates` and `equal_obj`, at OMOPSO.py:213-247;
- the archives, crowding and pruning, at OMOPSO.py:257-308;
- the tournament, at OMOPSO.py:204-211;
- the mutations, at OMOPSO.py:160-202;
- `move`, at OMOPSO.py:120-130;
- the generation bookkeeping, at OMOPSO.py:95-118;
- the mutation driver, at OMOPSO.py:148-157.

## Left out

- Kinematics.Constriction: the square root `sqrt(phi^2 - 4 phi)` is an input. `RootOk` requires that it is the non-negative root; the model has no real square root.
- Pareto.EuclidDistance: returns the squared sum (`RootOf`) rather than its square root. The model has no real square root, and every stated property holds for the root as well.
- Kinematics.NonUniformAmount: `rand ** ((1 - progress) ** perturbation)` is an input `shrink` in `[0, 1]`. Real powers are not modelled.
- DriverTools.OldCrossoverTriangular: the triangular draw is given as the fraction of the way between the parents at which it falls. The distribution's shape is not modelled.
- DriverTools.OldCrossoverBeta: the `betavariate` draw is an input. Its distribution is not modelled.
- Kinematics.SmpsoSpeeds: the coefficient draws are rounded to one decimal (`round(random.uniform(...), 1)`). That rounding is not modelled; the coefficients are inputs.
- Kinematics.LazyMutationDriver: has no contract of its own. Its effect is stated by `Kinematics.LazyDriverSkipsMutation`.
- Ranking.Layers: requires every fitness vector of the list to have the same length. Every caller builds its vectors from one list of fitness functions, `len(fitnesses)` entries each (drivertools.py:79-88). The model's proof that each round finds an undominated particle uses the transitivity of dominance that equal lengths give. It does not cover mixed lengths, where `paretofront_layers` also ends, because dominance over `zip` prefixes still has no cycle.
- Ranking.IndivsInorder: `get_indivs_inorder` and `rank` return lazy iterators; the model returns the sequence they produce.
- Pareto.WeightedChoice: the draw `random.uniform(0, total)` is an input. The failing `assert False` is `None`.
- The fitness functions and the fitness cache are inputs to `Generation.CalculateObjectives`. The `trim_function` hook, logging and the generation counter are not modelled.
- The order of the steps inside `step()`, `__init__` and `init_leaders()` is not a single Dafny member. Each step is modelled on its own, and `Generation.UpdateLeaders` also stands for `init_leaders()`.
- The driver machinery is not modelled: `Driver`, `max_budget` and `finish()`. The budget enters only through `Kinematics.Progress`.
- `distance_from_pareto`, `distribution`, `extent`, `gen_population`, `condition_count`, `condition_time` and `get_current_time` in ea_utils.py are not modelled. They are measurement, random-generation and clock helpers outside the optimiser's core.
- `mutate` and `crossover` in drivertools.py delegate to the NSGA-III operators, which are not part of this model.
- `average_indiv` in drivertools.py is not modelled. It is numpy averaging over floats.
- Floating-point rounding, NaN and infinite arithmetic are not modelled. Reals are exact, and infinity occurs only as a crowding value.
- The Python exceptions the code would raise on mismatched lengths (`IndexError` in `dominates` and `equal_obj`) and on `eta = -1` are preconditions. The code's callers never trigger them.

## Findings

| source | as written | input that shows it | evidently intended | confidence | as-written member | corrected member |
|---|---|---|---|---|---|---|
| algorithms/SMPSO/SMPSO.py:185-188 | `if speed > delta: speed = delta` followed by `elif speed < delta: speed = -delta`, so every component becomes `+delta` or `-delta` (a component equal to `delta` keeps its value) | a component `0.1` with `delta = 0.5` becomes `-0.5` | clamp into `[-delta, delta]`, keeping in-range components | high (not executed) | Kinematics.SmpsoClampFlips | Kinematics.BoundedComponent |
| algorithms/SMPSO/SMPSO.py:210-219 | the mutation is applied through a lazy `map` whose result is discarded, so no particle is ever mutated (the same at OMOPSO.py:152-157) | three particles at 0.5 in `[0, 1]`, every coin below the probability, amount 0.1: the first particle stays at 0.5 | mutate the first third uniformly and, with a truthy progress, the second third non-uniformly | high (not executed) | Kinematics.LazyDriverSkipsMutation | Kinematics.EagerMutationDriver |
| algorithms/utils/ea_utils.py:163-164 | the last group is appended only if it differs by value from the previous group | front `(5,0), (3.5,0), (5,0), (3.5,0)` with `epsilon = 1` gives `[[], [(5,0), (3.5,0)]]`, losing two points | always append the last group, so the groups cover the front | medium (not executed) | Pareto.SplitFrontDropsRepeatedGroup | Pareto.SplitFrontFixed |
