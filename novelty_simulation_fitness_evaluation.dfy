/** Fitness by simulation against the novelty archive: every population member is simulated against
    every individual of the archive, the whole batch repeated a configured number of times, and scored
    with the desired-value fitness of `SimulationFitness`. While the archive is empty nothing is
    simulated and every member gets fitness [0]. */
module NoveltySimulationFitness {
  import opened Wrappers
  import opened PySemantics
  import opened Itertools
  import opened PyDict
  import opened EvolutionTypes
  import opened SimulationFitness

  // ---------------------------------------------------------------------------
  // Tasks

  /** Each member paired with each archive individual, archive-major, the member first; the list repeated `count` times. */
  function CharacterPairs(count: int, archive: seq<EvaluatedIndividual>, population: seq<Individual>): seq<(Individual, Individual)>
  {
    Repeat(count, OuterMajorPairs(Individuals(archive), population))
  }

  function ArchiveTasks(metrics: seq<Metric>, count: int, archive: seq<EvaluatedIndividual>, population: seq<Individual>,
                        ids: nat -> string): seq<SimulationTask>
  {
    TasksFor(CharacterPairs(count, archive, population), metrics, ids)
  }

  /** There are count x |archive| x |population| tasks (none for a count below 1), each carrying the
      metrics and simulating a member, first, against an archive individual, second. */
  lemma ArchiveTasksShape(metrics: seq<Metric>, count: int, archive: seq<EvaluatedIndividual>, population: seq<Individual>,
                          ids: nat -> string)
    ensures var tasks := ArchiveTasks(metrics, count, archive, population, ids);
      && |tasks| == Max(count, 0) * (|archive| * |population|)
      && forall t :: 0 <= t < |tasks| ==>
           && tasks[t].simulationId == ids(t)
           && tasks[t].metrics == metrics
           && |tasks[t].charactersConfigs| == 2
           && tasks[t].charactersConfigs[0] in population
           && tasks[t].charactersConfigs[1] in Individuals(archive)
  {
    var pairs := OuterMajorPairs(Individuals(archive), population);
    OuterMajorPairsLength(Individuals(archive), population);
    RepeatShape(count, pairs);
    var all := CharacterPairs(count, archive, population);
    forall t | 0 <= t < |all|
      ensures all[t].0 in population && all[t].1 in Individuals(archive)
    {
      assert all[t] in all;
      OuterMajorPairsMembers(Individuals(archive), population, all[t].0, all[t].1);
    }
  }

  /** In round b, the task simulating member x against archive individual o is at index
      b*|archive|*|population| + o*|population| + x. */
  lemma ArchiveTaskAt(metrics: seq<Metric>, count: int, archive: seq<EvaluatedIndividual>, population: seq<Individual>,
                      ids: nat -> string, b: nat, o: nat, x: nat)
    requires b < count && o < |archive| && x < |population|
    ensures var t := b * (|archive| * |population|) + (o * |population| + x);
      var tasks := ArchiveTasks(metrics, count, archive, population, ids);
      && t < |tasks|
      && tasks[t] == SimulationTask(ids(t), [population[x], archive[o].individual], metrics)
  {
    var pairs := OuterMajorPairs(Individuals(archive), population);
    OuterMajorPairsLength(Individuals(archive), population);
    OuterMajorPairsAt(Individuals(archive), population, o, x);
    RepeatAt(count, pairs, b, o * |population| + x);
  }

  // ---------------------------------------------------------------------------
  // Evaluation

  /** The evaluation while the archive is empty: every member with fitness [0]. */
  function Bootstrap(population: seq<Individual>): (r: seq<EvaluatedIndividual>)
    ensures Individuals(r) == population
    ensures forall i :: 0 <= i < |r| ==> r[i].fitness == Some([0.0]) && r[i].feasible.None?
  {
    seq(|population|, i requires 0 <= i < |population| => EvaluatedIndividual(population[i], Some([0.0]), None))
  }

  /** One evaluation against the archive individuals `archive`; the tasks go to the queue `simulate`,
      the t-th with simulation id `ids(t)`. */
  function EvaluateAgainstArchive(desired: map<Metric, real>, metrics: seq<Metric>, count: int,
                                  archive: seq<EvaluatedIndividual>, population: seq<Individual>,
                                  ids: nat -> string, simulate: seq<SimulationTask> -> seq<SimulationResult>)
    : Result<seq<EvaluatedIndividual>, EvaluationError>
  {
    if archive == [] then Success(Bootstrap(population))
    else EvaluateResults(desired, population, simulate(ArchiveTasks(metrics, count, archive, population, ids)))
  }

  /** In both branches a successful evaluation keeps the population, in order, and gives each member a
      one-element fitness list; with an empty archive it always succeeds. */
  lemma EvaluateAgainstArchiveShape(desired: map<Metric, real>, metrics: seq<Metric>, count: int,
                                    archive: seq<EvaluatedIndividual>, population: seq<Individual>,
                                    ids: nat -> string, simulate: seq<SimulationTask> -> seq<SimulationResult>)
    ensures var r := EvaluateAgainstArchive(desired, metrics, count, archive, population, ids, simulate);
      && (archive == [] ==> r.Success?)
      && (r.Success? ==>
            && Individuals(r.value) == population
            && forall i :: 0 <= i < |population| ==>
                 r.value[i].fitness.Some? && |r.value[i].fitness.value| == 1 && r.value[i].feasible.None?)
  {
    if archive != [] {
      var results := simulate(ArchiveTasks(metrics, count, archive, population, ids));
      var grouped := GroupAll(ToMeasurements(results));
      if grouped.Success? {
        var fitness := EvaluateFitnessAllCharacters(desired, grouped.value);
        if fitness.Success? {
          assert EvaluateResults(desired, population, results) == FitnessOutput(population, fitness.value);
        }
      }
    }
  }

  /** When the archive is not empty, there is at least one round and the queue answers every task,
      every member took part in some simulation, in the first position. */
  lemma EveryMemberSimulated(metrics: seq<Metric>, count: int, archive: seq<EvaluatedIndividual>, population: seq<Individual>,
                             ids: nat -> string, results: seq<SimulationResult>, keys: seq<Metric>)
    requires 1 <= count && archive != []
    requires var tasks := ArchiveTasks(metrics, count, archive, population, ids);
      forall t :: 0 <= t < |tasks| ==> exists k :: 0 <= k < |results| && results[k].simulationData == tasks[t]
    requires forall j :: 0 <= j < |results| ==> WellFormedResult(ToMeasurements(results)[j], keys)
    ensures forall i :: 0 <= i < |population| ==>
      population[i].characterId in AppIds(Appearances(ToMeasurements(results), keys))
  {
    var tasks := ArchiveTasks(metrics, count, archive, population, ids);
    forall i | 0 <= i < |population|
      ensures population[i].characterId in AppIds(Appearances(ToMeasurements(results), keys))
    {
      ArchiveTaskAt(metrics, count, archive, population, ids, 0, 0, i);
      assert tasks[i].charactersConfigs == [population[i], archive[0].individual];
      var k :| 0 <= k < |results| && results[k].simulationData == tasks[i];
      AppearsIn(results, keys, k, 0);
    }
  }

  /** End to end, with a non-empty archive: when the queue answers every task with well-formed results over
      the same distinct metrics, each with a nonzero desired value, every member gets the desired-value
      fitness of all its measurements. */
  lemma EvaluateAgainstArchiveSpec(desired: map<Metric, real>, metrics: seq<Metric>, count: int,
                                   archive: seq<EvaluatedIndividual>, population: seq<Individual>,
                                   ids: nat -> string, simulate: seq<SimulationTask> -> seq<SimulationResult>, keys: seq<Metric>)
    requires 1 <= count && archive != []
    requires Distinct(keys) && keys != [] && forall r :: 0 <= r < |keys| ==> keys[r] in desired && desired[keys[r]] != 0.0
    requires var tasks := ArchiveTasks(metrics, count, archive, population, ids);
      var results := simulate(tasks);
      && (forall t :: 0 <= t < |tasks| ==> exists k :: 0 <= k < |results| && results[k].simulationData == tasks[t])
      && forall j :: 0 <= j < |results| ==> WellFormedResult(ToMeasurements(results)[j], keys)
    ensures var out := EvaluateAgainstArchive(desired, metrics, count, archive, population, ids, simulate);
      var apps := Appearances(ToMeasurements(simulate(ArchiveTasks(metrics, count, archive, population, ids))), keys);
      && out.Success?
      && Individuals(out.value) == population
      && forall i :: 0 <= i < |population| ==>
           (forall r :: 0 <= r < |keys| ==> Column(apps, population[i].characterId, r) != [])
           && out.value[i].fitness == Some([ExpectedFitness(desired, apps, keys, population[i].characterId)])
  {
    var tasks := ArchiveTasks(metrics, count, archive, population, ids);
    var results := simulate(tasks);
    assert forall t :: 0 <= t < |tasks| ==> exists k :: 0 <= k < |results| && results[k].simulationData == tasks[t];
    EveryMemberSimulated(metrics, count, archive, population, ids, results, keys);
    EvaluateResultsSpec(desired, population, results, keys);
  }

  // ---------------------------------------------------------------------------
  // The evaluator

  /** The novelty fitness evaluator; it keeps the results and the grouped measurements of the last
      population it simulated. */
  class NoveltySimulationFitnessEvaluation {
    const metrics: seq<Metric>
    const desiredValues: map<Metric, real>
    const simulationPopulationCount: int
    var prevSimulationResults: seq<SimulationResult>
    var prevMeasuresByCharacterId: CharactersAllMeasurements

    constructor (metrics: seq<Metric>, desiredValues: map<Metric, real>, simulationPopulationCount: int)
      ensures this.metrics == metrics && this.desiredValues == desiredValues
      ensures this.simulationPopulationCount == simulationPopulationCount
      ensures prevSimulationResults == [] && prevMeasuresByCharacterId == []
    {
      this.metrics := metrics;
      this.desiredValues := desiredValues;
      this.simulationPopulationCount := simulationPopulationCount;
      prevSimulationResults := [];
      prevMeasuresByCharacterId := [];
    }

    /** Evaluates a population against the current archive individuals `archive`. With an empty archive
        nothing is simulated or stored; otherwise the results are stored, then the grouped measurements
        if grouping succeeds. */
    method EvaluateOnePopulation(archive: seq<EvaluatedIndividual>, population: seq<Individual>, ids: nat -> string,
                                 simulate: seq<SimulationTask> -> seq<SimulationResult>)
      returns (r: Result<seq<EvaluatedIndividual>, EvaluationError>)
      modifies this
      ensures archive == [] ==> unchanged(this)
      ensures archive != [] ==>
        && prevSimulationResults == simulate(ArchiveTasks(metrics, simulationPopulationCount, archive, population, ids))
        && var grouped := GroupAll(ToMeasurements(prevSimulationResults));
           prevMeasuresByCharacterId == if grouped.Success? then grouped.value else old(prevMeasuresByCharacterId)
      ensures r == EvaluateAgainstArchive(desiredValues, metrics, simulationPopulationCount, archive, population, ids, simulate)
    {
      if archive == [] {
        return Success(Bootstrap(population));
      }
      var tasks := ArchiveTasks(metrics, simulationPopulationCount, archive, population, ids);
      var results := simulate(tasks);
      prevSimulationResults := results;
      var grouped := GroupAllMeasuresByCharacter(ToMeasurements(results));
      if grouped.Failure? {
        return Failure(grouped.error);
      }
      prevMeasuresByCharacterId := grouped.value;
      var fitness := EvaluateFitnessAllCharacters(desiredValues, grouped.value);
      if fitness.Failure? {
        return Failure(fitness.error);
      }
      r := FitnessOutput(population, fitness.value);
    }
  }
}
