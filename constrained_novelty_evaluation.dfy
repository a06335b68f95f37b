/** Feasibility by simulation: every population member is simulated against every fixed opponent,
    the whole batch repeated a configured number of times; a member is feasible when a large enough
    share of its averaged metrics fall in their configured closed ranges. */
module ConstrainedNovelty {
  import opened Wrappers
  import opened PySemantics
  import opened Itertools
  import opened PyDict
  import opened EvolutionTypes
  import opened SimulationFitness

  /** A closed interval [lo, hi] of feasible averaged values. */
  type Range = (real, real)

  /** The evaluator's configuration; nothing in it changes after construction. */
  datatype ConstrainedNoveltyEvaluation = ConstrainedNoveltyEvaluation(
    metrics: seq<Metric>,
    simulationCharacters: seq<Individual>,
    feasibleMetricRanges: map<Metric, Range>,
    minimumRequiredFeasibleMetricPercentage: real,
    simulationPopulationCount: int)

  /** The constructor's defaults: every metric must be feasible, and the batch is simulated once. */
  function WithDefaults(metrics: seq<Metric>, simulationCharacters: seq<Individual>, ranges: map<Metric, Range>)
    : ConstrainedNoveltyEvaluation
  {
    ConstrainedNoveltyEvaluation(metrics, simulationCharacters, ranges, 1.0, 1)
  }

  // ---------------------------------------------------------------------------
  // Tasks

  /** Each member paired with each opponent, opponent-major, the member first; the list repeated `count` times. */
  function CharacterPairs(e: ConstrainedNoveltyEvaluation, population: seq<Individual>): seq<(Individual, Individual)>
  {
    Repeat(e.simulationPopulationCount, OuterMajorPairs(e.simulationCharacters, population))
  }

  function SimulationTasks(e: ConstrainedNoveltyEvaluation, population: seq<Individual>, ids: nat -> string): seq<SimulationTask>
  {
    TasksFor(CharacterPairs(e, population), e.metrics, ids)
  }

  /** There are count x |opponents| x |population| tasks (none for a count below 1), each carrying the
      configured metrics and simulating a member, first, against an opponent. */
  lemma SimulationTasksShape(e: ConstrainedNoveltyEvaluation, population: seq<Individual>, ids: nat -> string)
    ensures var tasks := SimulationTasks(e, population, ids);
      && |tasks| == Max(e.simulationPopulationCount, 0) * (|e.simulationCharacters| * |population|)
      && forall t :: 0 <= t < |tasks| ==>
           && tasks[t].simulationId == ids(t)
           && tasks[t].metrics == e.metrics
           && |tasks[t].charactersConfigs| == 2
           && tasks[t].charactersConfigs[0] in population
           && tasks[t].charactersConfigs[1] in e.simulationCharacters
  {
    var pairs := OuterMajorPairs(e.simulationCharacters, population);
    OuterMajorPairsLength(e.simulationCharacters, population);
    RepeatShape(e.simulationPopulationCount, pairs);
    var all := CharacterPairs(e, population);
    forall t | 0 <= t < |all|
      ensures all[t].0 in population && all[t].1 in e.simulationCharacters
    {
      assert all[t] in all;
      OuterMajorPairsMembers(e.simulationCharacters, population, all[t].0, all[t].1);
    }
  }

  /** In round b, the task simulating member x against opponent o is at index b*|opponents|*|population| + o*|population| + x. */
  lemma SimulationTaskAt(e: ConstrainedNoveltyEvaluation, population: seq<Individual>, ids: nat -> string, b: nat, o: nat, x: nat)
    requires b < e.simulationPopulationCount && o < |e.simulationCharacters| && x < |population|
    ensures var t := b * (|e.simulationCharacters| * |population|) + (o * |population| + x);
      var tasks := SimulationTasks(e, population, ids);
      && t < |tasks|
      && tasks[t] == SimulationTask(ids(t), [population[x], e.simulationCharacters[o]], e.metrics)
  {
    var pairs := OuterMajorPairs(e.simulationCharacters, population);
    var u := o * |population| + x;
    OuterMajorPairsLength(e.simulationCharacters, population);
    OuterMajorPairsAt(e.simulationCharacters, population, o, x);
    RepeatAt(e.simulationPopulationCount, pairs, b, u);
    var all := CharacterPairs(e, population);
    var t := b * (|e.simulationCharacters| * |population|) + u;
    assert t == b * |pairs| + u;
    assert t < |all| && all[t] == (population[x], e.simulationCharacters[o]);
  }

  // ---------------------------------------------------------------------------
  // Feasibility

  /** A metric's average is feasible when it lies in the metric's range, both ends included; a metric
      without a range raises. */
  function IsFeasibleMetricResult(ranges: map<Metric, Range>, metric: Metric, average: real): (r: Result<bool, EvaluationError>)
    ensures r.Failure? <==> metric !in ranges
    ensures r.Success? ==> (r.value <==> ranges[metric].0 <= average <= ranges[metric].1)
  {
    if metric !in ranges then Failure(NoRange)
    else Success(average >= ranges[metric].0 && average <= ranges[metric].1)
  }

  ghost predicate InRange(ranges: map<Metric, Range>, metric: Metric, average: real) {
    metric in ranges && ranges[metric].0 <= average <= ranges[metric].1
  }

  /** The number of feasible averages, checked in order; the first metric without a range raises. */
  function FeasibleCount(ranges: map<Metric, Range>, averages: Dict<Metric, real>): (r: Result<nat, EvaluationError>)
    ensures r.Success? <==> forall i :: 0 <= i < |averages| ==> averages[i].0 in ranges
    ensures r.Success? ==> r.value <= |averages|
    ensures r.Success? ==> (r.value == |averages| <==> forall i :: 0 <= i < |averages| ==> InRange(ranges, averages[i].0, averages[i].1))
    ensures r.Success? ==> (r.value == 0 <==> forall i :: 0 <= i < |averages| ==> !InRange(ranges, averages[i].0, averages[i].1))
  {
    if averages == [] then Success(0)
    else
      var first := IsFeasibleMetricResult(ranges, averages[0].0, averages[0].1);
      var rest := FeasibleCount(ranges, averages[1..]);
      assert forall i :: 0 < i < |averages| ==> averages[i] == averages[1..][i - 1];
      if first.Failure? then Failure(first.error)
      else if rest.Failure? then Failure(rest.error)
      else Success((if first.value then 1 else 0) + rest.value)
  }

  /** A character is feasible when the share of its metrics whose mean is feasible reaches the threshold.
      An empty list, a metric without a range, or a character without metrics raises. */
  function IsFeasible(e: ConstrainedNoveltyEvaluation, lists: CharacterAllMeasurements): Result<bool, EvaluationError>
  {
    var averages :- TryMapItems(lists, MeanOf);
    var count :- FeasibleCount(e.feasibleMetricRanges, averages);
    if |lists| == 0 then Failure(NoMetrics)
    else Success(ShareReaches(count, |lists|, e.minimumRequiredFeasibleMetricPercentage))
  }

  /** `count / n >= threshold`, in exact arithmetic. */
  function ShareReaches(count: nat, n: nat, threshold: real): bool
    requires 0 < n
  {
    count as real / n as real >= threshold
  }

  /** The share reaches the threshold exactly when the count reaches threshold x n. */
  lemma ShareAtLeast(count: nat, n: nat, threshold: real)
    requires 0 < n
    ensures ShareReaches(count, n, threshold) <==> count as real >= threshold * n as real
  {
    var q := count as real / n as real;
    assert q * n as real == count as real;
    if q >= threshold {
      assert q * n as real >= threshold * n as real;
    } else {
      assert q * n as real < threshold * n as real;
    }
  }

  /** Feasibility succeeds exactly when the character has metrics, each with a measurement and a range. */
  lemma IsFeasibleSucceeds(e: ConstrainedNoveltyEvaluation, lists: CharacterAllMeasurements)
    ensures IsFeasible(e, lists).Success? <==>
      lists != [] && forall r :: 0 <= r < |lists| ==> lists[r].1 != [] && lists[r].0 in e.feasibleMetricRanges
  {
    if forall r :: 0 <= r < |lists| ==> lists[r].1 != [] {
      AveragesOf(lists);
      var averages := Averages(lists);
      assert forall r :: 0 <= r < |lists| ==> averages[r].0 == lists[r].0;
    } else {
      var r :| 0 <= r < |lists| && lists[r].1 == [];
      assert MeanOf(lists[r].0, lists[r].1).Failure?;
    }
  }

  /** A character is feasible exactly when its feasible metrics number at least threshold x metrics, an exact hit included. */
  lemma IsFeasibleShare(e: ConstrainedNoveltyEvaluation, lists: CharacterAllMeasurements)
    requires lists != [] && forall r :: 0 <= r < |lists| ==> lists[r].1 != [] && lists[r].0 in e.feasibleMetricRanges
    ensures FeasibleCount(e.feasibleMetricRanges, Averages(lists)).Success?
    ensures IsFeasible(e, lists) == Success(ShareReaches(
      FeasibleCount(e.feasibleMetricRanges, Averages(lists)).value, |lists|, e.minimumRequiredFeasibleMetricPercentage))
  {
    AveragesOf(lists);
    var averages := Averages(lists);
    assert forall r :: 0 <= r < |lists| ==> averages[r].0 == lists[r].0;
  }

  /** A share of at most one reaches 1.0 only when it is whole. */
  lemma ShareReachesOne(count: nat, n: nat)
    requires 0 < n && count <= n
    ensures ShareReaches(count, n, 1.0) <==> count == n
  {
    ShareAtLeast(count, n, 1.0);
  }

  /** With the default threshold 1.0 a character is feasible exactly when every metric's mean is in range:
      a single metric out of range makes it infeasible. */
  lemma DefaultThresholdFeasible(e: ConstrainedNoveltyEvaluation, lists: CharacterAllMeasurements)
    requires e.minimumRequiredFeasibleMetricPercentage == 1.0
    requires IsFeasible(e, lists).Success?
    ensures forall r :: 0 <= r < |lists| ==> lists[r].1 != []
    ensures IsFeasible(e, lists).value <==>
      forall r :: 0 <= r < |lists| ==> InRange(e.feasibleMetricRanges, lists[r].0, Mean(lists[r].1).value)
  {
    IsFeasibleSucceeds(e, lists);
    IsFeasibleShare(e, lists);
    var averages := Averages(lists);
    var count := FeasibleCount(e.feasibleMetricRanges, averages).value;
    ShareReachesOne(count, |lists|);
  }

  // ---------------------------------------------------------------------------
  // The evaluated population

  /** The feasibility of every grouped character, in the same order. */
  function FeasibilityOfPopulation(e: ConstrainedNoveltyEvaluation, all: CharactersAllMeasurements)
    : (r: Result<Dict<CharacterId, bool>, EvaluationError>)
    ensures r.Success? ==> Keys(r.value) == Keys(all)
  {
    TryMapItems(all, (id: CharacterId, lists: CharacterAllMeasurements) => IsFeasible(e, lists))
  }

  /** Each member with its feasibility flag; a member without one raises. */
  function FeasibleOutput(population: seq<Individual>, feasibility: Dict<CharacterId, bool>)
    : (r: Result<seq<EvaluatedIndividual>, EvaluationError>)
    ensures r.Success? <==> forall i :: 0 <= i < |population| ==> population[i].characterId in Keys(feasibility)
    ensures r.Success? ==> Individuals(r.value) == population
    ensures r.Success? ==> forall i :: 0 <= i < |population| ==>
      r.value[i].fitness.None? && r.value[i].feasible == Get(feasibility, population[i].characterId)
  {
    if forall i :: 0 <= i < |population| ==> population[i].characterId in Keys(feasibility) then
      Success(seq(|population|, i requires 0 <= i < |population| =>
        EvaluatedIndividual(population[i], None, Some(Get(feasibility, population[i].characterId).value))))
    else Failure(Unmeasured)
  }

  /** Simulation results to an evaluated population: group, decide feasibility, and look each member up. */
  function FeasibleResults(e: ConstrainedNoveltyEvaluation, population: seq<Individual>, results: seq<SimulationResult>)
    : Result<seq<EvaluatedIndividual>, EvaluationError>
  {
    var grouped :- GroupAll(ToMeasurements(results));
    var feasibility :- FeasibilityOfPopulation(e, grouped);
    FeasibleOutput(population, feasibility)
  }

  /** One evaluation: the tasks go to the queue `simulate`, the t-th with simulation id `ids(t)`. */
  function EvaluateOnePopulation(e: ConstrainedNoveltyEvaluation, population: seq<Individual>, ids: nat -> string,
                                 simulate: seq<SimulationTask> -> seq<SimulationResult>)
    : Result<seq<EvaluatedIndividual>, EvaluationError>
  {
    FeasibleResults(e, population, simulate(SimulationTasks(e, population, ids)))
  }

  /** The means of a character's columns, in metric order. */
  ghost function ColumnAverages(apps: seq<Appearance>, keys: seq<Metric>, c: CharacterId): Dict<Metric, real>
    requires forall r :: 0 <= r < |keys| ==> Column(apps, c, r) != []
  {
    seq(|keys|, r requires 0 <= r < |keys| => (keys[r], Mean(Column(apps, c, r)).value))
  }

  /** The feasibility a character should get: whether the share of its metrics whose mean over all its
      measurements is in range reaches the threshold. */
  ghost function ExpectedFeasible(e: ConstrainedNoveltyEvaluation, apps: seq<Appearance>, keys: seq<Metric>, c: CharacterId): bool
    requires keys != [] && forall r :: 0 <= r < |keys| ==> keys[r] in e.feasibleMetricRanges
    requires forall r :: 0 <= r < |keys| ==> Column(apps, c, r) != []
  {
    var averages := ColumnAverages(apps, keys, c);
    assert forall i :: 0 <= i < |averages| ==> averages[i].0 in e.feasibleMetricRanges;
    ShareReaches(FeasibleCount(e.feasibleMetricRanges, averages).value, |keys|, e.minimumRequiredFeasibleMetricPercentage)
  }

  /** A grouped character's feasibility is its expected feasibility. */
  lemma GroupedFeasible(e: ConstrainedNoveltyEvaluation, apps: seq<Appearance>, keys: seq<Metric>,
                        c: CharacterId, lists: CharacterAllMeasurements)
    requires keys != [] && forall r :: 0 <= r < |keys| ==> keys[r] in e.feasibleMetricRanges
    requires |lists| == |keys|
    requires forall r :: 0 <= r < |keys| ==> lists[r] == (keys[r], Column(apps, c, r)) && Column(apps, c, r) != []
    ensures IsFeasible(e, lists) == Success(ExpectedFeasible(e, apps, keys, c))
  {
    IsFeasibleSucceeds(e, lists);
    IsFeasibleShare(e, lists);
    assert Averages(lists) == ColumnAverages(apps, keys, c);
  }

  /** Deciding the feasibility of well-formed grouped results gives every grouped character its expected feasibility. */
  lemma GroupedFeasibility(e: ConstrainedNoveltyEvaluation, ms: seq<SimulationMeasurements>, keys: seq<Metric>)
    requires Distinct(keys) && keys != [] && forall r :: 0 <= r < |keys| ==> keys[r] in e.feasibleMetricRanges
    requires forall j :: 0 <= j < |ms| ==> WellFormedResult(ms[j], keys)
    ensures GroupAll(ms).Success?
    ensures var grouped := GroupAll(ms).value;
      var apps := Appearances(ms, keys);
      && FeasibilityOfPopulation(e, grouped).Success?
      && var feasibility := FeasibilityOfPopulation(e, grouped).value;
      && Keys(feasibility) == Keys(grouped)
      && forall q :: 0 <= q < |grouped| ==>
           (forall r :: 0 <= r < |keys| ==> Column(apps, grouped[q].0, r) != [])
           && feasibility[q].1 == ExpectedFeasible(e, apps, keys, grouped[q].0)
  {
    var apps := Appearances(ms, keys);
    GroupedColumns(ms, keys);
    var grouped := GroupAll(ms).value;
    var check := (id: CharacterId, lists: CharacterAllMeasurements) => IsFeasible(e, lists);
    forall q | 0 <= q < |grouped|
      ensures check(grouped[q].0, grouped[q].1) == Success(ExpectedFeasible(e, apps, keys, grouped[q].0))
    {
      GroupedFeasible(e, apps, keys, grouped[q].0, grouped[q].1);
    }
  }

  /** A character that appears in well-formed results gets its expected feasibility. */
  lemma MemberFeasible(e: ConstrainedNoveltyEvaluation, ms: seq<SimulationMeasurements>, keys: seq<Metric>, c: CharacterId)
    requires Distinct(keys) && keys != [] && forall r :: 0 <= r < |keys| ==> keys[r] in e.feasibleMetricRanges
    requires forall j :: 0 <= j < |ms| ==> WellFormedResult(ms[j], keys)
    requires c in AppIds(Appearances(ms, keys))
    ensures GroupAll(ms).Success? && FeasibilityOfPopulation(e, GroupAll(ms).value).Success?
    ensures forall r :: 0 <= r < |keys| ==> Column(Appearances(ms, keys), c, r) != []
    ensures Get(FeasibilityOfPopulation(e, GroupAll(ms).value).value, c)
      == Some(ExpectedFeasible(e, Appearances(ms, keys), keys, c))
  {
    GroupedColumns(ms, keys);
    GroupedFeasibility(e, ms, keys);
    var grouped := GroupAll(ms).value;
    var feasibility := FeasibilityOfPopulation(e, grouped).value;
    var q :| 0 <= q < |grouped| && Keys(grouped)[q] == c;
    GetSameKeys(feasibility, grouped, q);
  }

  /** End to end: when the results are well-formed, report the same distinct metrics, each with a range, and
      every member took part in some simulation, evaluation succeeds and gives each member, in population
      order, no fitness and its expected feasibility. */
  lemma FeasibleResultsSpec(e: ConstrainedNoveltyEvaluation, population: seq<Individual>, results: seq<SimulationResult>, keys: seq<Metric>)
    requires Distinct(keys) && keys != [] && forall r :: 0 <= r < |keys| ==> keys[r] in e.feasibleMetricRanges
    requires forall j :: 0 <= j < |results| ==> WellFormedResult(ToMeasurements(results)[j], keys)
    requires forall i :: 0 <= i < |population| ==>
      population[i].characterId in AppIds(Appearances(ToMeasurements(results), keys))
    ensures var out := FeasibleResults(e, population, results);
      && out.Success?
      && Individuals(out.value) == population
      && forall i :: 0 <= i < |population| ==>
           var apps := Appearances(ToMeasurements(results), keys);
           (forall r :: 0 <= r < |keys| ==> Column(apps, population[i].characterId, r) != [])
           && out.value[i].fitness.None?
           && out.value[i].feasible == Some(ExpectedFeasible(e, apps, keys, population[i].characterId))
  {
    var ms := ToMeasurements(results);
    var apps := Appearances(ms, keys);
    GroupedColumns(ms, keys);
    var grouped := GroupAll(ms).value;
    GroupedFeasibility(e, ms, keys);
    var feasibility := FeasibilityOfPopulation(e, grouped).value;
    forall i | 0 <= i < |population|
      ensures (forall r :: 0 <= r < |keys| ==> Column(apps, population[i].characterId, r) != [])
      ensures Get(feasibility, population[i].characterId) == Some(ExpectedFeasible(e, apps, keys, population[i].characterId))
    {
      MemberFeasible(e, ms, keys, population[i].characterId);
    }
    assert FeasibleResults(e, population, results) == FeasibleOutput(population, feasibility);
  }

  /** When there is at least one opponent and one round, and the queue answers every task, every member
      took part in some simulation. */
  lemma EveryMemberSimulated(e: ConstrainedNoveltyEvaluation, population: seq<Individual>, ids: nat -> string,
                             results: seq<SimulationResult>, keys: seq<Metric>)
    requires 1 <= e.simulationPopulationCount && e.simulationCharacters != []
    requires var tasks := SimulationTasks(e, population, ids);
      forall t :: 0 <= t < |tasks| ==> exists k :: 0 <= k < |results| && results[k].simulationData == tasks[t]
    requires forall j :: 0 <= j < |results| ==> WellFormedResult(ToMeasurements(results)[j], keys)
    ensures forall i :: 0 <= i < |population| ==>
      population[i].characterId in AppIds(Appearances(ToMeasurements(results), keys))
  {
    var tasks := SimulationTasks(e, population, ids);
    forall i | 0 <= i < |population|
      ensures population[i].characterId in AppIds(Appearances(ToMeasurements(results), keys))
    {
      SimulationTaskAt(e, population, ids, 0, 0, i);
      assert tasks[i].charactersConfigs == [population[i], e.simulationCharacters[0]];
      var k :| 0 <= k < |results| && results[k].simulationData == tasks[i];
      AppearsIn(results, keys, k, 0);
    }
  }
}
