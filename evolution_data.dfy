/** Analysis of stored evolution runs: the feasible members of a generation, the diversity of a population
    (the sum of the distances over all its unordered pairs), the most diverse six-member sub-population,
    and the feasible members of the last generation of every stored run. The distance is supplied by the
    caller. */
module EvolutionData {
  import opened Wrappers
  import opened PySemantics
  import opened Itertools
  import opened PyDict
  import opened EvolutionTypes

  /** A stored member of a generation: its genome and, when recorded, its `feasibility_score`. */
  datatype StoredMember = StoredMember(individual: Individual, feasibilityScore: Option<real>)

  /** A stored evolution run: its generations, oldest first. */
  datatype Instance = Instance(generations: seq<seq<StoredMember>>)

  /** The exceptions of the analysis: a member without a score (KeyError), `max` or `mean` over nothing
      (ValueError, StatisticsError), a run without generations (IndexError). */
  datatype DataError = MissingScore | EmptyInput | NoGenerations

  // ---------------------------------------------------------------------------
  // Feasible members

  predicate Feasible(m: StoredMember)
    requires m.feasibilityScore.Some?
  {
    m.feasibilityScore.value == 1.0
  }

  /** `filter_feasible_from_population`: the members scoring exactly 1, in order; a member without a score
      raises. */
  function FilterFeasible(population: seq<StoredMember>): Result<seq<StoredMember>, DataError>
  {
    if population == [] then Success([])
    else if population[0].feasibilityScore.None? then Failure(MissingScore)
    else
      var rest :- FilterFeasible(population[1..]);
      Success(if Feasible(population[0]) then [population[0]] + rest else rest)
  }

  /** Filtering succeeds exactly when every member is scored, and then keeps exactly the members scoring 1. */
  lemma {:induction false} FilterFeasibleSpec(population: seq<StoredMember>)
    ensures var r := FilterFeasible(population);
      && (r.Success? <==> forall i :: 0 <= i < |population| ==> population[i].feasibilityScore.Some?)
      && (r.Success? ==>
            && |r.value| <= |population|
            && forall m :: m in r.value <==> m in population && Feasible(m))
  {
    if population != [] && population[0].feasibilityScore.Some? {
      FilterFeasibleSpec(population[1..]);
      var r := FilterFeasible(population);
      if r.Success? {
        forall m ensures m in r.value <==> m in population && Feasible(m) {
          assert m in population <==> m == population[0] || m in population[1..];
        }
      }
      if forall i :: 0 <= i < |population| ==> population[i].feasibilityScore.Some? {
        assert forall i :: 0 <= i < |population[1..]| ==> population[1..][i].feasibilityScore.Some? by {
          forall i | 0 <= i < |population[1..]| ensures population[1..][i].feasibilityScore.Some? {
            assert population[1..][i] == population[i + 1];
          }
        }
      } else {
        var i :| 0 <= i < |population| && population[i].feasibilityScore.None?;
        assert population[1..][i - 1] == population[i];
      }
    }
  }

  /** Filtering a concatenation filters each part and keeps them in order. */
  lemma {:induction false} FilterFeasibleAppend(a: seq<StoredMember>, b: seq<StoredMember>)
    requires FilterFeasible(a).Success? && FilterFeasible(b).Success?
    ensures FilterFeasible(a + b) == Success(FilterFeasible(a).value + FilterFeasible(b).value)
  {
    if a != [] {
      var ab := a + b;
      assert ab[0] == a[0] && ab[1..] == a[1..] + b;
      assert FilterFeasible(a[1..]).Success?;
      FilterFeasibleAppend(a[1..], b);
      var fa := FilterFeasible(a[1..]).value;
      var fb := FilterFeasible(b).value;
      assert FilterFeasible(ab[1..]) == Success(fa + fb);
      if Feasible(a[0]) {
        assert FilterFeasible(a).value == [a[0]] + fa;
        assert [a[0]] + (fa + fb) == ([a[0]] + fa) + fb;
      } else {
        assert FilterFeasible(a).value == fa;
      }
    } else {
      assert a + b == b;
      assert [] + FilterFeasible(b).value == FilterFeasible(b).value;
    }
  }

  /** Filtering the feasible members again changes nothing. */
  lemma {:induction false} FilterFeasibleIdempotent(population: seq<StoredMember>)
    requires FilterFeasible(population).Success?
    ensures FilterFeasible(FilterFeasible(population).value) == FilterFeasible(population)
  {
    if population != [] {
      FilterFeasibleIdempotent(population[1..]);
      var rest := FilterFeasible(population[1..]).value;
      if Feasible(population[0]) {
        assert ([population[0]] + rest)[1..] == rest;
      }
    }
  }

  // ---------------------------------------------------------------------------
  // Diversity

  /** The distance between the genomes of each pair, in order. */
  function PairDistances(pairs: seq<(StoredMember, StoredMember)>, dist: Distance): (r: seq<real>)
    ensures |r| == |pairs| && forall t :: 0 <= t < |pairs| ==> r[t] == dist(pairs[t].0.individual, pairs[t].1.individual)
  {
    seq(|pairs|, t requires 0 <= t < |pairs| => dist(pairs[t].0.individual, pairs[t].1.individual))
  }

  /** `diversity`: the sum of the distances over all unordered pairs of members. */
  function Diversity(population: seq<StoredMember>, dist: Distance): real
  {
    Sum(PairDistances(Pairs(population), dist))
  }

  /** The distances from one member to each of the others. */
  function DistancesFrom(x: StoredMember, others: seq<StoredMember>, dist: Distance): (r: seq<real>)
    ensures |r| == |others| && forall j :: 0 <= j < |others| ==> r[j] == dist(x.individual, others[j].individual)
  {
    seq(|others|, j requires 0 <= j < |others| => dist(x.individual, others[j].individual))
  }

  /** A population of fewer than two members has diversity 0. */
  lemma DiversityOfFewerThanTwo(population: seq<StoredMember>, dist: Distance)
    requires |population| < 2
    ensures Diversity(population, dist) == 0.0
  {
    PairsLength(population);
  }

  /** Adding a member in front adds its distance to every other member. */
  lemma DiversityCons(x: StoredMember, others: seq<StoredMember>, dist: Distance)
    ensures Diversity([x] + others, dist) == Sum(DistancesFrom(x, others, dist)) + Diversity(others, dist)
  {
    var s := [x] + others;
    assert s[1..] == others;
    var head := seq(|s| - 1, j requires 0 <= j < |s| - 1 => (s[0], s[j + 1]));
    assert Pairs(s) == head + Pairs(others);
    var ds := PairDistances(Pairs(s), dist);
    assert ds == DistancesFrom(x, others, dist) + PairDistances(Pairs(others), dist);
    SumAppend(DistancesFrom(x, others, dist), PairDistances(Pairs(others), dist));
  }

  /** Every pair's distance is a distance between two members. */
  lemma PairDistancesBounded(population: seq<StoredMember>, dist: Distance, hi: real)
    requires forall a, b :: a in population && b in population ==> 0.0 <= dist(a.individual, b.individual) <= hi
    ensures var ds := PairDistances(Pairs(population), dist);
      forall t :: 0 <= t < |ds| ==> 0.0 <= ds[t] <= hi
  {
    var pairs := Pairs(population);
    forall t | 0 <= t < |pairs| ensures 0.0 <= dist(pairs[t].0.individual, pairs[t].1.individual) <= hi {
      assert pairs[t] in pairs;
      PairsMembers(population, pairs[t].0, pairs[t].1);
      var i, j :| 0 <= i < j < |population| && pairs[t].0 == population[i] && pairs[t].1 == population[j];
      assert population[i] in population && population[j] in population;
    }
  }

  /** With every distance between members within [0, hi], the diversity lies within [0, hi * n(n-1)/2]. */
  lemma DiversityBounds(population: seq<StoredMember>, dist: Distance, hi: real)
    requires forall a, b :: a in population && b in population ==> 0.0 <= dist(a.individual, b.individual) <= hi
    ensures var n := |population|;
      0.0 <= Diversity(population, dist) && 2.0 * Diversity(population, dist) <= (n * (n - 1)) as real * hi
  {
    var ds := PairDistances(Pairs(population), dist);
    PairsLength(population);
    PairDistancesBounded(population, dist, hi);
    SumNonNegative(ds);
    SumAtMost(ds, hi);
    DoubleBound(Sum(ds), |ds|, |population| * (|population| - 1), hi);
  }

  lemma DoubleBound(total: real, count: nat, doubled: int, hi: real)
    requires total <= count as real * hi && doubled == 2 * count
    ensures 2.0 * total <= doubled as real * hi
  {
    assert doubled as real == 2.0 * count as real;
  }

  // ---------------------------------------------------------------------------
  // The most diverse six

  /** Python's `max(scores)` index: the first greatest value. */
  function FirstMax(scores: seq<real>): (r: nat)
    requires scores != []
    ensures r < |scores|
    ensures forall j :: 0 <= j < |scores| ==> scores[j] <= scores[r]
    ensures forall j :: 0 <= j < r ==> scores[j] < scores[r]
  {
    if |scores| == 1 then 0
    else
      var m := FirstMax(scores[..|scores| - 1]);
      if scores[|scores| - 1] > scores[m] then |scores| - 1 else m
  }

  /** The diversity of each sub-population. */
  function Diversities(subPopulations: seq<seq<StoredMember>>, dist: Distance): (r: seq<real>)
    ensures |r| == |subPopulations| && forall i :: 0 <= i < |r| ==> r[i] == Diversity(subPopulations[i], dist)
  {
    seq(|subPopulations|, i requires 0 <= i < |subPopulations| => Diversity(subPopulations[i], dist))
  }

  /** `larges_permutation_diversity`: the first six-member combination of greatest diversity, with that
      diversity; fewer than six members leave `max` nothing to choose from. */
  function LargestPermutationDiversity(population: seq<StoredMember>, dist: Distance)
    : Result<(seq<StoredMember>, real), DataError>
  {
    var subPopulations := Combinations(population, 6);
    if subPopulations == [] then Failure(EmptyInput)
    else
      var best := FirstMax(Diversities(subPopulations, dist));
      Success((subPopulations[best], Diversity(subPopulations[best], dist)))
  }

  /** The result exists exactly for six members or more; it is a six-member combination carrying its own
      diversity, no combination is more diverse, and every earlier one is strictly less diverse. */
  lemma LargestPermutationDiversitySpec(population: seq<StoredMember>, dist: Distance)
    ensures var r := LargestPermutationDiversity(population, dist);
      var combos := Combinations(population, 6);
      && (r.Success? <==> 6 <= |population|)
      && (r.Success? ==>
            && r.value.0 in combos
            && |r.value.0| == 6
            && r.value.1 == Diversity(r.value.0, dist)
            && (forall c :: c in combos ==> Diversity(c, dist) <= r.value.1)
            && exists k :: 0 <= k < |combos| && combos[k] == r.value.0
                 && forall j :: 0 <= j < k ==> Diversity(combos[j], dist) < r.value.1)
  {
    var combos := Combinations(population, 6);
    CombinationsShape(population, 6);
    if combos != [] {
      var scores := Diversities(combos, dist);
      var k := FirstMax(scores);
      forall c | c in combos ensures Diversity(c, dist) <= scores[k] {
        var j :| 0 <= j < |combos| && combos[j] == c;
        assert scores[j] <= scores[k];
      }
      assert combos[k] in combos;
    }
  }

  // ---------------------------------------------------------------------------
  // Averages and run statistics

  /** `avg_diversity_of_populations`: the mean diversity of the dictionary's populations; with no populations
      `mean` raises. */
  function AvgDiversity<K>(populations: Dict<K, seq<StoredMember>>, dist: Distance): Result<real, DataError>
  {
    var m := Mean(Diversities(Values(populations), dist));
    if m.None? then Failure(EmptyInput) else Success(m.value)
  }

  /** The average exists exactly when there is a population, and then lies between the least and the
      greatest diversity. */
  lemma AvgDiversitySpec<K>(populations: Dict<K, seq<StoredMember>>, dist: Distance, lo: real, hi: real)
    requires forall i :: 0 <= i < |populations| ==> lo <= Diversity(populations[i].1, dist) <= hi
    ensures var r := AvgDiversity(populations, dist);
      && (r.Success? <==> populations != [])
      && (r.Success? ==> lo <= r.value <= hi)
  {
    var ds := Diversities(Values(populations), dist);
    if populations != [] {
      MeanBounds(ds, lo, hi);
    }
  }

  /** The feasible members of a run's last generation; a run without generations raises. */
  function LastFeasible(instance: Instance): Result<seq<StoredMember>, DataError>
  {
    if instance.generations == [] then Failure(NoGenerations)
    else FilterFeasible(instance.generations[|instance.generations| - 1])
  }

  /** `get_stats_from_evolution_instances` as a value: one filtered last generation per run, in order. */
  function StatsOf(instances: seq<Instance>): Result<seq<seq<StoredMember>>, DataError>
  {
    if instances == [] then Success([])
    else
      var first :- LastFeasible(instances[0]);
      Prepended([first], StatsOf(instances[1..]))
  }

  function Prepended<T>(done: seq<T>, r: Result<seq<T>, DataError>): Result<seq<T>, DataError>
  {
    if r.Failure? then r else Success(done + r.value)
  }

  /** The statistics exist exactly when every run has a last generation whose members are all scored; the
      i-th entry is then the feasible part of the i-th run's last generation. */
  lemma {:induction false} StatsOfSpec(instances: seq<Instance>)
    ensures var r := StatsOf(instances);
      && (r.Success? <==> forall i :: 0 <= i < |instances| ==> LastFeasible(instances[i]).Success?)
      && (r.Success? ==> |r.value| == |instances| && forall i :: 0 <= i < |instances| ==> r.value[i] == LastFeasible(instances[i]).value)
  {
    if instances != [] {
      StatsOfSpec(instances[1..]);
      if LastFeasible(instances[0]).Success? {
        var r := StatsOf(instances);
        if r.Success? {
          forall i | 0 < i < |instances| ensures r.value[i] == LastFeasible(instances[i]).value {
            assert instances[1..][i - 1] == instances[i];
          }
        } else {
          var j :| 0 <= j < |instances[1..]| && LastFeasible(instances[1..][j]).Failure?;
          assert instances[1..][j] == instances[j + 1];
        }
      }
    }
  }

  /** `get_stats_from_evolution_instances`: collects the feasible members of each run's last generation. */
  method GetStatsFromEvolutionInstances(instances: seq<Instance>) returns (r: Result<seq<seq<StoredMember>>, DataError>)
    ensures r == StatsOf(instances)
  {
    var lastGenerationFeasibleIndividuals: seq<seq<StoredMember>> := [];
    assert instances[0..] == instances;
    assert StatsOf(instances).Success? ==> [] + StatsOf(instances).value == StatsOf(instances).value;
    for i := 0 to |instances|
      invariant StatsOf(instances) == Prepended(lastGenerationFeasibleIndividuals, StatsOf(instances[i..]))
    {
      assert instances[i..][1..] == instances[i + 1..];
      var generations := instances[i].generations;
      if generations == [] {
        return Failure(NoGenerations);
      }
      var feasiblePopulation := FilterFeasible(generations[|generations| - 1]);
      if feasiblePopulation.Failure? {
        return Failure(feasiblePopulation.error);
      }
      var rest := StatsOf(instances[i + 1..]);
      assert rest.Success? ==>
        lastGenerationFeasibleIndividuals + ([feasiblePopulation.value] + rest.value)
        == (lastGenerationFeasibleIndividuals + [feasiblePopulation.value]) + rest.value;
      lastGenerationFeasibleIndividuals := lastGenerationFeasibleIndividuals + [feasiblePopulation.value];
    }
    assert instances[|instances|..] == [];
    assert lastGenerationFeasibleIndividuals + [] == lastGenerationFeasibleIndividuals;
    r := Success(lastGenerationFeasibleIndividuals);
  }
}
