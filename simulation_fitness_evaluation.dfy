/** Fitness by simulation: every pair of the population is simulated, the
    per-metric measurements are grouped by character, averaged, scored against
    a desired value per metric, and the scores averaged into one fitness. The
    simulation queue is an oracle passed in as a function from tasks to results. */
module SimulationFitness {
  import opened Wrappers
  import opened PySemantics
  import opened Itertools
  import opened PyDict
  import opened EvolutionTypes

  type Metric = string

  /** The work item pushed to the simulation queue. */
  datatype SimulationTask = SimulationTask(simulationId: string, charactersConfigs: seq<Individual>, metrics: seq<Metric>)

  /** What the simulator sends back: for each metric, one value per character of the task. */
  datatype SimulationResult = SimulationResult(simulationId: string, simulationData: SimulationTask, metrics: Dict<Metric, seq<real>>)

  /** A result with the character configurations reduced to their ids. */
  datatype SimulationMeasurements = SimulationMeasurements(simulationId: string, charactersId: seq<CharacterId>, metrics: Dict<Metric, seq<real>>)

  /** All measurements of one character, by metric. */
  type CharacterAllMeasurements = Dict<Metric, seq<real>>

  /** All measurements by character id, in order of first appearance. */
  type CharactersAllMeasurements = Dict<CharacterId, CharacterAllMeasurements>

  /** The exceptions an evaluation can raise. */
  datatype EvaluationError =
    | MissingCharacter     // a result names fewer characters than the position read
    | MissingMeasurement   // a metric's list is shorter than the position read
    | UnknownMetric        // a later result reports a metric the character's first result did not
    | EmptyMeasurements    // the mean of an empty list
    | NoDesiredValue       // a metric without a desired value is scored
    | ZeroDesiredValue     // the desired value 0 divides the score
    | NoMetrics            // the mean of no metric scores
    | Unmeasured           // a population member has no fitness or feasibility
    | NoRange              // a metric without a feasible range is checked

  // ---------------------------------------------------------------------------
  // Tasks

  /** One task per pair, carrying the given metrics; the t-th task gets the t-th fresh simulation id. */
  function TasksFor(pairs: seq<(Individual, Individual)>, metrics: seq<Metric>, ids: nat -> string): (r: seq<SimulationTask>)
    ensures |r| == |pairs|
  {
    seq(|pairs|, t requires 0 <= t < |pairs| => SimulationTask(ids(t), [pairs[t].0, pairs[t].1], metrics))
  }

  /** The tasks for a population: every unordered pair once, in `combinations` order. */
  function SimulationTasks(population: seq<Individual>, metrics: seq<Metric>, ids: nat -> string): seq<SimulationTask>
  {
    TasksFor(Pairs(population), metrics, ids)
  }

  /** There are n(n-1)/2 tasks, one per unordered pair. */
  lemma SimulationTasksCount(population: seq<Individual>, metrics: seq<Metric>, ids: nat -> string)
    ensures 2 * |SimulationTasks(population, metrics, ids)| == |population| * (|population| - 1)
  {
    PairsLength(population);
  }

  /** The t-th task has the t-th id, the configured metrics, and simulates two members i < j in that order. */
  lemma SimulationTaskAt(population: seq<Individual>, metrics: seq<Metric>, ids: nat -> string, t: nat)
    requires t < |SimulationTasks(population, metrics, ids)|
    ensures var task := SimulationTasks(population, metrics, ids)[t];
      && task.simulationId == ids(t)
      && task.metrics == metrics
      && exists i, j :: 0 <= i < j < |population| && task.charactersConfigs == [population[i], population[j]]
  {
    var pairs := Pairs(population);
    assert pairs[t] in pairs;
    PairsMembers(population, pairs[t].0, pairs[t].1);
  }

  /** Every two members i < j are simulated together by some task. */
  lemma SimulationTasksCover(population: seq<Individual>, metrics: seq<Metric>, ids: nat -> string, i: nat, j: nat)
    requires i < j < |population|
    ensures var tasks := SimulationTasks(population, metrics, ids);
      exists t :: 0 <= t < |tasks| && tasks[t].charactersConfigs == [population[i], population[j]]
  {
    var pairs := Pairs(population);
    var tasks := SimulationTasks(population, metrics, ids);
    PairsMembers(population, population[i], population[j]);
    var t :| 0 <= t < |pairs| && pairs[t] == (population[i], population[j]);
    assert tasks[t].charactersConfigs == [population[i], population[j]];
  }

  // ---------------------------------------------------------------------------
  // Measurements

  function ConfigIds(configs: seq<Individual>): (r: seq<CharacterId>)
    ensures |r| == |configs|
  {
    seq(|configs|, i requires 0 <= i < |configs| => configs[i].characterId)
  }

  /** Each result reduced to its id, its character ids in configuration order, and its metrics. */
  function ToMeasurements(results: seq<SimulationResult>): (r: seq<SimulationMeasurements>)
    ensures |r| == |results|
  {
    seq(|results|, j requires 0 <= j < |results| =>
      SimulationMeasurements(results[j].simulationId, ConfigIds(results[j].simulationData.charactersConfigs), results[j].metrics))
  }

  /** The measurements of a result answering a population task keep its id and metrics and name two members i < j, in that order. */
  lemma MeasurementsOfTask(population: seq<Individual>, metrics: seq<Metric>, ids: nat -> string,
                           results: seq<SimulationResult>, k: nat)
    requires k < |results|
    requires results[k].simulationData in SimulationTasks(population, metrics, ids)
    ensures var m := ToMeasurements(results)[k];
      && m.simulationId == results[k].simulationId
      && m.metrics == results[k].metrics
      && exists a, b :: 0 <= a < b < |population| && m.charactersId == [population[a].characterId, population[b].characterId]
  {
    var tasks := SimulationTasks(population, metrics, ids);
    var t :| 0 <= t < |tasks| && tasks[t] == results[k].simulationData;
    SimulationTaskAt(population, metrics, ids, t);
    var a, b :| 0 <= a < b < |population| && tasks[t].charactersConfigs == [population[a], population[b]];
    assert ToMeasurements(results)[k].charactersId == [population[a].characterId, population[b].characterId];
  }

  // ---------------------------------------------------------------------------
  // Grouping by character

  /** The measurement of every metric for the character at position i. */
  function MeasurementsAt(m: SimulationMeasurements, i: nat): Result<Dict<Metric, real>, EvaluationError>
  {
    TryMapItems(m.metrics, (metric: Metric, values: seq<real>) =>
      if i < |values| then Success(values[i]) else Failure(MissingMeasurement))
  }

  /** Appends each measurement to the character's list for its metric, in measurement order. */
  function AppendMeasurements(lists: CharacterAllMeasurements, ms: Dict<Metric, real>): Result<CharacterAllMeasurements, EvaluationError>
    decreases |ms|
  {
    if ms == [] then Success(lists)
    else match Get(lists, ms[0].0)
      case None => Failure(UnknownMetric)
      case Some(l) => AppendMeasurements(Put(lists, ms[0].0, l + [ms[0].1]), ms[1..])
  }

  /** A first measurement starts a list of its own. */
  function Singleton(metric: Metric, v: real): seq<real>
  {
    [v]
  }

  /** A character's first measurements start singleton lists; later ones are appended. */
  function AddCharacterMeasurements(acc: CharactersAllMeasurements, id: CharacterId, ms: Dict<Metric, real>)
    : Result<CharactersAllMeasurements, EvaluationError>
  {
    match Get(acc, id)
    case None => Success(Put(acc, id, MapItems(ms, Singleton)))
    case Some(lists) =>
      var appended := AppendMeasurements(lists, ms);
      if appended.Failure? then Failure(appended.error) else Success(Put(acc, id, appended.value))
  }

  /** The contribution of the character at position i of one result. */
  function AddPosition(acc: CharactersAllMeasurements, m: SimulationMeasurements, i: nat): Result<CharactersAllMeasurements, EvaluationError>
  {
    if |m.charactersId| <= i then Failure(MissingCharacter)
    else
      var ms :- MeasurementsAt(m, i);
      AddCharacterMeasurements(acc, m.charactersId[i], ms)
  }

  /** Positions 0 to n-1 of one result, in that order. */
  function AddPositions(acc: CharactersAllMeasurements, m: SimulationMeasurements, n: nat): Result<CharactersAllMeasurements, EvaluationError>
  {
    FoldPositions(acc, m, n, AddPosition)
  }

  /** `step` applied to positions 0 to n-1 in turn, stopping at the first failure. */
  function FoldPositions<A, M, E>(acc: A, m: M, n: nat, step: (A, M, nat) -> Result<A, E>): Result<A, E>
  {
    if n == 0 then Success(acc)
    else
      var before := FoldPositions(acc, m, n - 1, step);
      if before.Failure? then before else step(before.value, m, n - 1)
  }

  lemma {:induction false} FoldPositionsFailure<A, M, E>(acc: A, m: M, i: nat, n: nat, step: (A, M, nat) -> Result<A, E>)
    requires i <= n && FoldPositions(acc, m, i, step).Failure?
    ensures FoldPositions(acc, m, n, step) == FoldPositions(acc, m, i, step)
    decreases n
  {
    if i < n {
      FoldPositionsFailure(acc, m, i, n - 1, step);
    }
  }

  /** The reducer: positions 0 and 1 of one result. */
  function GroupStep(acc: CharactersAllMeasurements, m: SimulationMeasurements): Result<CharactersAllMeasurements, EvaluationError>
  {
    AddPositions(acc, m, 2)
  }

  /** The reducer folded over the results from the left, starting from no characters. */
  function GroupAll(ms: seq<SimulationMeasurements>): Result<CharactersAllMeasurements, EvaluationError>
  {
    if ms == [] then Success([])
    else
      var acc :- GroupAll(ms[..|ms| - 1]);
      GroupStep(acc, ms[|ms| - 1])
  }

  /** Appends measurements to a character's lists one metric at a time. */
  method AppendEach(lists: CharacterAllMeasurements, ms: Dict<Metric, real>) returns (r: Result<CharacterAllMeasurements, EvaluationError>)
    ensures r == AppendMeasurements(lists, ms)
  {
    var current := lists;
    var p := 0;
    while p < |ms|
      invariant 0 <= p <= |ms|
      invariant AppendMeasurements(current, ms[p..]) == AppendMeasurements(lists, ms)
    {
      assert ms[p..][1..] == ms[p + 1..];
      var (metric, measurement) := ms[p];
      var existing := Get(current, metric);
      if existing.None? {
        return Failure(UnknownMetric);
      }
      current := Put(current, metric, existing.value + [measurement]);
      p := p + 1;
    }
    r := Success(current);
  }

  /** Adds the character at position i of one result to the accumulator. */
  method AddPositionTo(acc: CharactersAllMeasurements, m: SimulationMeasurements, i: nat)
    returns (r: Result<CharactersAllMeasurements, EvaluationError>)
    ensures r == AddPosition(acc, m, i)
  {
    if |m.charactersId| <= i {
      return Failure(MissingCharacter);
    }
    var id := m.charactersId[i];
    var measurements := MeasurementsAt(m, i);
    if measurements.Failure? {
      return Failure(measurements.error);
    }
    var existing := Get(acc, id);
    if existing.None? {
      r := Success(Put(acc, id, MapItems(measurements.value, Singleton)));
    } else {
      var appended := AppendEach(existing.value, measurements.value);
      if appended.Failure? {
        return Failure(appended.error);
      }
      r := Success(Put(acc, id, appended.value));
    }
  }

  /** Position i is added to what positions 0 to i-1 gave, unless they failed. */
  lemma AddPositionsNext(acc: CharactersAllMeasurements, m: SimulationMeasurements, i: nat)
    ensures var before := AddPositions(acc, m, i);
      AddPositions(acc, m, i + 1) == if before.Failure? then before else AddPosition(before.value, m, i)
  {
  }

  /** Once a position fails, the remaining positions are not read and the failure stands. */
  lemma {:induction false} AddPositionsFailure(acc: CharactersAllMeasurements, m: SimulationMeasurements, i: nat, n: nat)
    requires i <= n && AddPositions(acc, m, i).Failure?
    ensures AddPositions(acc, m, n) == AddPositions(acc, m, i)
  {
    FoldPositionsFailure(acc, m, i, n, AddPosition);
  }

  /** A failure part-way stops the fold: the later results are not read. */
  lemma {:induction false} GroupAllFailure(ms: seq<SimulationMeasurements>, k: nat)
    requires k <= |ms| && GroupAll(ms[..k]).Failure?
    ensures GroupAll(ms) == GroupAll(ms[..k])
    decreases |ms|
  {
    if k < |ms| {
      assert ms[..|ms| - 1][..k] == ms[..k];
      GroupAllFailure(ms[..|ms| - 1], k);
    } else {
      assert ms[..k] == ms;
    }
  }

  lemma GroupAllSnoc(ms: seq<SimulationMeasurements>, j: nat, acc: CharactersAllMeasurements)
    requires j < |ms| && GroupAll(ms[..j]) == Success(acc)
    ensures GroupAll(ms[..j + 1]) == GroupStep(acc, ms[j])
  {
    assert ms[..j + 1][..j] == ms[..j];
  }

  /** One reducer step: the two characters of one result added in order, stopping at the first failure. */
  method AddResult(start: CharactersAllMeasurements, m: SimulationMeasurements) returns (r: Result<CharactersAllMeasurements, EvaluationError>)
    ensures r == GroupStep(start, m)
  {
    r := Success(start);
    var i := 0;
    while i < 2 && r.Success?
      invariant 0 <= i <= 2
      invariant r == AddPositions(start, m, i)
    {
      AddPositionsNext(start, m, i);
      r := AddPositionTo(r.value, m, i);
      i := i + 1;
    }
    if r.Failure? {
      AddPositionsFailure(start, m, i, 2);
    }
  }

  /** Groups all measurements by character and metric, updating one accumulator result by result. */
  method GroupAllMeasuresByCharacter(ms: seq<SimulationMeasurements>) returns (r: Result<CharactersAllMeasurements, EvaluationError>)
    ensures r == GroupAll(ms)
  {
    var acc: CharactersAllMeasurements := [];
    var j := 0;
    while j < |ms|
      invariant 0 <= j <= |ms|
      invariant GroupAll(ms[..j]) == Success(acc)
    {
      GroupAllSnoc(ms, j, acc);
      var added := AddResult(acc, ms[j]);
      if added.Failure? {
        GroupAllFailure(ms, j + 1);
        return Failure(added.error);
      }
      acc := added.value;
      j := j + 1;
    }
    assert ms[..j] == ms;
    r := Success(acc);
  }

  // ---------------------------------------------------------------------------
  // What the grouping computes

  /** One character's measurements from one result: its id and one value per metric. */
  type Appearance = (CharacterId, Dict<Metric, real>)

  ghost predicate Distinct(keys: seq<Metric>) {
    forall i, j :: 0 <= i < j < |keys| ==> keys[i] != keys[j]
  }

  /** A result of a two-character simulation that reports the metrics `keys`, in that order, for both characters. */
  ghost predicate WellFormedResult(m: SimulationMeasurements, keys: seq<Metric>) {
    && 2 <= |m.charactersId|
    && Keys(m.metrics) == keys
    && forall r :: 0 <= r < |m.metrics| ==> 2 <= |m.metrics[r].1|
  }

  ghost function AppearanceAt(m: SimulationMeasurements, i: nat): Appearance
    requires i < |m.charactersId|
    requires forall r :: 0 <= r < |m.metrics| ==> i < |m.metrics[r].1|
  {
    (m.charactersId[i], seq(|m.metrics|, r requires 0 <= r < |m.metrics| => (m.metrics[r].0, m.metrics[r].1[i])))
  }

  /** The appearances of all characters, result by result, position 0 before position 1. */
  ghost function Appearances(ms: seq<SimulationMeasurements>, keys: seq<Metric>): seq<Appearance>
    requires forall j :: 0 <= j < |ms| ==> WellFormedResult(ms[j], keys)
  {
    if ms == [] then []
    else
      var m := ms[|ms| - 1];
      assert WellFormedResult(m, keys);
      Appearances(ms[..|ms| - 1], keys) + [AppearanceAt(m, 0), AppearanceAt(m, 1)]
  }

  ghost function AppIds(apps: seq<Appearance>): (r: seq<CharacterId>)
    ensures |r| == |apps| && forall a :: 0 <= a < |apps| ==> r[a] == apps[a].0
  {
    seq(|apps|, a requires 0 <= a < |apps| => apps[a].0)
  }

  /** The r-th metric's values of character c, in order of appearance. */
  ghost function Column(apps: seq<Appearance>, c: CharacterId, r: nat): seq<real>
  {
    if apps == [] then []
    else
      var last := apps[|apps| - 1];
      Column(apps[..|apps| - 1], c, r) + (if last.0 == c && r < |last.1| then [last.1[r].1] else [])
  }

  /** The grouped measurements hold exactly the characters that appear, each with one list per metric, holding its column. */
  ghost predicate GroupedAs(acc: CharactersAllMeasurements, apps: seq<Appearance>, keys: seq<Metric>) {
    && UniqueKeys(acc)
    && (forall c :: c in Keys(acc) <==> c in AppIds(apps))
    && (forall q :: 0 <= q < |acc| ==> Keys(acc[q].1) == keys)
    && (forall q, r :: 0 <= q < |acc| && 0 <= r < |keys| ==> acc[q].1[r].1 == Column(apps, acc[q].0, r))
  }

  /** The measurements at a position of a well-formed result are that position's appearance. */
  lemma MeasurementsAtWellFormed(m: SimulationMeasurements, keys: seq<Metric>, i: nat)
    requires WellFormedResult(m, keys) && i < 2
    ensures MeasurementsAt(m, i) == Success(AppearanceAt(m, i).1)
  {
    var f := (metric: Metric, values: seq<real>) =>
      if i < |values| then Success(values[i]) else Failure(MissingMeasurement);
    assert MeasurementsAt(m, i) == TryMapItems(m.metrics, f);
    forall r | 0 <= r < |m.metrics| ensures f(m.metrics[r].0, m.metrics[r].1) == Success(m.metrics[r].1[i]) {
    }
    var t := TryMapItems(m.metrics, f);
    var d := AppearanceAt(m, i).1;
    assert |t.value| == |d|;
    forall r | 0 <= r < |d| ensures t.value[r] == d[r] {
      assert t.value[r].0 == Keys(t.value)[r];
    }
    assert t.value == d;
  }

  /** Each list of `lists` whose metric is measured gets that measurement appended; the others are kept. */
  ghost function AppendedAll(lists: CharacterAllMeasurements, ms: Dict<Metric, real>): (r: CharacterAllMeasurements)
    ensures |r| == |lists|
  {
    seq(|lists|, q requires 0 <= q < |lists| =>
      var g := Get(ms, lists[q].0);
      if g.Some? then (lists[q].0, lists[q].1 + [g.value]) else lists[q])
  }

  /** Appending the first measurement and then the rest appends them all. */
  lemma AppendedAllStep(lists: CharacterAllMeasurements, ms: Dict<Metric, real>, p: nat)
    requires UniqueKeys(lists) && UniqueKeys(ms) && ms != [] && p < |lists| && lists[p].0 == ms[0].0
    ensures AppendedAll(lists[p := (ms[0].0, lists[p].1 + [ms[0].1])], ms[1..]) == AppendedAll(lists, ms)
  {
    var k := ms[0].0;
    var next := lists[p := (k, lists[p].1 + [ms[0].1])];
    forall q | 0 <= q < |lists| ensures AppendedAll(next, ms[1..])[q] == AppendedAll(lists, ms)[q] {
      if q == p {
        assert k !in Keys(ms[1..]) by {
          forall j | 0 <= j < |ms[1..]| ensures Keys(ms[1..])[j] != k {
            assert ms[1..][j] == ms[j + 1];
          }
        }
      }
    }
  }

  /** Appending the first measurement to its list, by position. */
  lemma AppendFirst(lists: CharacterAllMeasurements, ms: Dict<Metric, real>, p: nat)
    requires UniqueKeys(lists) && UniqueKeys(ms) && ms != [] && p < |lists| && lists[p].0 == ms[0].0
    requires forall k :: k in Keys(ms) ==> k in Keys(lists)
    ensures var next := lists[p := (ms[0].0, lists[p].1 + [ms[0].1])];
      && AppendMeasurements(lists, ms) == AppendMeasurements(next, ms[1..])
      && UniqueKeys(next) && UniqueKeys(ms[1..])
      && forall k :: k in Keys(ms[1..]) ==> k in Keys(next)
  {
    var next := lists[p := (ms[0].0, lists[p].1 + [ms[0].1])];
    GetAt(lists, p);
    PutAt(lists, p, lists[p].1 + [ms[0].1]);
    assert Keys(next) == Keys(lists);
    forall k' | k' in Keys(ms[1..]) ensures k' in Keys(next) {
      var j :| 0 <= j < |ms[1..]| && Keys(ms[1..])[j] == k';
      assert Keys(ms)[j + 1] == k';
    }
    forall i, j | 0 <= i < j < |next| ensures next[i].0 != next[j].0 {
      assert next[i].0 == lists[i].0 && next[j].0 == lists[j].0;
    }
    forall i, j | 0 <= i < j < |ms[1..]| ensures ms[1..][i].0 != ms[1..][j].0 {
      assert ms[1..][i] == ms[i + 1] && ms[1..][j] == ms[j + 1];
    }
  }

  /** Appending succeeds when every measured metric already has a list, and appends to exactly those lists. */
  lemma {:induction false} AppendMeasurementsSpec(lists: CharacterAllMeasurements, ms: Dict<Metric, real>)
    requires UniqueKeys(lists) && UniqueKeys(ms)
    requires forall k :: k in Keys(ms) ==> k in Keys(lists)
    ensures AppendMeasurements(lists, ms) == Success(AppendedAll(lists, ms))
    decreases |ms|
  {
    if ms == [] {
      assert AppendedAll(lists, ms) == lists;
    } else {
      assert Keys(ms)[0] in Keys(ms);
      var p :| 0 <= p < |lists| && Keys(lists)[p] == Keys(ms)[0];
      AppendFirst(lists, ms, p);
      AppendMeasurementsSpec(lists[p := (ms[0].0, lists[p].1 + [ms[0].1])], ms[1..]);
      AppendedAllStep(lists, ms, p);
    }
  }

  /** A character that has not appeared has empty columns. */
  lemma {:induction false} ColumnAbsent(apps: seq<Appearance>, c: CharacterId, r: nat)
    requires c !in AppIds(apps)
    ensures Column(apps, c, r) == []
  {
    if apps != [] {
      assert AppIds(apps[..|apps| - 1]) == AppIds(apps)[..|apps| - 1];
      ColumnAbsent(apps[..|apps| - 1], c, r);
    }
  }

  lemma ColumnSnoc(apps: seq<Appearance>, app: Appearance, c: CharacterId, r: nat)
    ensures Column(apps + [app], c, r) == Column(apps, c, r) + (if app.0 == c && r < |app.1| then [app.1[r].1] else [])
  {
    assert (apps + [app])[..|apps|] == apps;
  }

  lemma KeysUnique<V>(d: Dict<Metric, V>, keys: seq<Metric>)
    requires Distinct(keys) && Keys(d) == keys
    ensures UniqueKeys(d)
  {
    forall i, j | 0 <= i < j < |d| ensures d[i].0 != d[j].0 {
      assert d[i].0 == Keys(d)[i] && d[j].0 == Keys(d)[j];
    }
  }

  /** A character's first appearance adds it at the end with singleton lists. */
  lemma AddNewCharacterSpec(acc: CharactersAllMeasurements, apps: seq<Appearance>, keys: seq<Metric>,
                            id: CharacterId, d: Dict<Metric, real>)
    requires Distinct(keys) && GroupedAs(acc, apps, keys) && Keys(d) == keys && id !in Keys(acc)
    ensures AddCharacterMeasurements(acc, id, d) == Success(acc + [(id, MapItems(d, Singleton))])
    ensures GroupedAs(acc + [(id, MapItems(d, Singleton))], apps + [(id, d)], keys)
  {
    var apps' := apps + [(id, d)];
    var started := MapItems(d, Singleton);
    var acc' := acc + [(id, started)];
    PutNew(acc, id, started);
    assert AppIds(apps') == AppIds(apps) + [id];
    assert Keys(acc') == Keys(acc) + [id];
    forall r | 0 <= r < |keys| ensures started[r].1 == Column(apps', id, r) {
      ColumnAbsent(apps, id, r);
      ColumnSnoc(apps, (id, d), id, r);
    }
    forall q, r | 0 <= q < |acc| && 0 <= r < |keys| ensures acc'[q].1[r].1 == Column(apps', acc'[q].0, r) {
      assert acc[q].0 == Keys(acc)[q];
      ColumnSnoc(apps, (id, d), acc[q].0, r);
    }
    forall i, j | 0 <= i < j < |acc'| ensures acc'[i].0 != acc'[j].0 {
      assert acc'[i].0 == Keys(acc')[i] && acc'[j].0 == Keys(acc')[j];
    }
  }

  /** Lists and measurements over the same metrics: each list gets its metric's measurement appended. */
  lemma AppendKnownLists(lists: CharacterAllMeasurements, d: Dict<Metric, real>, keys: seq<Metric>)
    requires Distinct(keys) && Keys(lists) == keys && Keys(d) == keys
    ensures var a := AppendMeasurements(lists, d);
      && a.Success? && Keys(a.value) == keys
      && forall r :: 0 <= r < |keys| ==> a.value[r].1 == lists[r].1 + [d[r].1]
  {
    KeysUnique(lists, keys);
    KeysUnique(d, keys);
    AppendMeasurementsSpec(lists, d);
    var appended := AppendedAll(lists, d);
    forall r | 0 <= r < |keys| ensures appended[r] == (keys[r], lists[r].1 + [d[r].1]) {
      assert lists[r].0 == Keys(lists)[r] && d[r].0 == Keys(d)[r];
      GetAt(d, r);
    }
    assert Keys(appended) == keys;
  }

  /** A later appearance appends to the character's lists in place. */
  lemma AddKnownCharacterSpec(acc: CharactersAllMeasurements, apps: seq<Appearance>, keys: seq<Metric>,
                              p: nat, d: Dict<Metric, real>)
    requires Distinct(keys) && GroupedAs(acc, apps, keys) && Keys(d) == keys && p < |acc|
    ensures AddCharacterMeasurements(acc, acc[p].0, d).Success?
    ensures GroupedAs(AddCharacterMeasurements(acc, acc[p].0, d).value, apps + [(acc[p].0, d)], keys)
  {
    var id := acc[p].0;
    var apps' := apps + [(id, d)];
    assert AppIds(apps') == AppIds(apps) + [id];
    assert id == Keys(acc)[p];
    GetAt(acc, p);
    var lists := acc[p].1;
    AppendKnownLists(lists, d, keys);
    var appended := AppendMeasurements(lists, d).value;
    PutAt(acc, p, appended);
    var acc' := acc[p := (id, appended)];
    assert AddCharacterMeasurements(acc, id, d) == Success(acc');
    assert Keys(acc') == Keys(acc);
    forall q, r | 0 <= q < |acc'| && 0 <= r < |keys| ensures acc'[q].1[r].1 == Column(apps', acc'[q].0, r) {
      ColumnSnoc(apps, (id, d), acc'[q].0, r);
      if q != p {
        assert acc[q].0 != id;
      }
    }
    forall i, j | 0 <= i < j < |acc'| ensures acc'[i].0 != acc'[j].0 {
      assert acc'[i].0 == acc[i].0 && acc'[j].0 == acc[j].0;
    }
  }

  /** One position of a well-formed result is added as its appearance. */
  lemma AddPositionSpec(acc: CharactersAllMeasurements, apps: seq<Appearance>, keys: seq<Metric>,
                        m: SimulationMeasurements, i: nat)
    requires Distinct(keys) && GroupedAs(acc, apps, keys) && WellFormedResult(m, keys) && i < 2
    ensures AddPosition(acc, m, i).Success?
    ensures GroupedAs(AddPosition(acc, m, i).value, apps + [AppearanceAt(m, i)], keys)
  {
    MeasurementsAtWellFormed(m, keys, i);
    var app := AppearanceAt(m, i);
    assert Keys(app.1) == keys;
    assert AddPosition(acc, m, i) == AddCharacterMeasurements(acc, app.0, app.1);
    if app.0 in Keys(acc) {
      var p :| 0 <= p < |acc| && Keys(acc)[p] == app.0;
      AddKnownCharacterSpec(acc, apps, keys, p, app.1);
    } else {
      AddNewCharacterSpec(acc, apps, keys, app.0, app.1);
    }
  }

  /** Both positions of a well-formed result are added, position 0 first. */
  lemma GroupStepSpec(acc: CharactersAllMeasurements, apps: seq<Appearance>, keys: seq<Metric>, m: SimulationMeasurements)
    requires Distinct(keys) && GroupedAs(acc, apps, keys) && WellFormedResult(m, keys)
    ensures GroupStep(acc, m).Success?
    ensures GroupedAs(GroupStep(acc, m).value, apps + [AppearanceAt(m, 0), AppearanceAt(m, 1)], keys)
  {
    AddPositionSpec(acc, apps, keys, m, 0);
    var first := AddPosition(acc, m, 0).value;
    AddPositionsNext(acc, m, 0);
    AddPositionsNext(acc, m, 1);
    AddPositionSpec(first, apps + [AppearanceAt(m, 0)], keys, m, 1);
    assert apps + [AppearanceAt(m, 0)] + [AppearanceAt(m, 1)] == apps + [AppearanceAt(m, 0), AppearanceAt(m, 1)];
  }

  /** On well-formed results that all report the same distinct metrics, grouping succeeds and
      holds, for every character that took part and for no other, each metric's values in
      order of appearance. */
  lemma {:induction false} GroupAllSpec(ms: seq<SimulationMeasurements>, keys: seq<Metric>)
    requires Distinct(keys)
    requires forall j :: 0 <= j < |ms| ==> WellFormedResult(ms[j], keys)
    ensures GroupAll(ms).Success?
    ensures GroupedAs(GroupAll(ms).value, Appearances(ms, keys), keys)
  {
    if ms == [] {
      assert AppIds([]) == [];
    } else {
      var prefix := ms[..|ms| - 1];
      var m := ms[|ms| - 1];
      assert forall j :: 0 <= j < |prefix| ==> prefix[j] == ms[j];
      GroupAllSpec(prefix, keys);
      var acc := GroupAll(prefix).value;
      assert GroupAll(ms) == GroupStep(acc, m);
      assert WellFormedResult(m, keys);
      GroupStepSpec(acc, Appearances(prefix, keys), keys, m);
    }
  }

  /** Each list holds one value per appearance of the character. */
  lemma {:induction false} ColumnLength(apps: seq<Appearance>, c: CharacterId, r: nat)
    requires forall a :: 0 <= a < |apps| ==> r < |apps[a].1|
    ensures |Column(apps, c, r)| == multiset(AppIds(apps))[c]
  {
    if apps != [] {
      var n := |apps| - 1;
      ColumnLength(apps[..n], c, r);
      assert AppIds(apps) == AppIds(apps[..n]) + [apps[n].0];
    }
  }

  // ---------------------------------------------------------------------------
  // Scoring

  /** A zero average is scored as 0.001. */
  function ScoredAverage(average: real): real
  {
    if average == 0.0 then 0.001 else average
  }

  /** The score of one averaged metric: one minus its distance to the desired value relative to
      that value, capped at 1; a metric without a desired value, or a desired value of 0, raises. */
  function MetricScore(desired: map<Metric, real>, metric: Metric, average: real): (r: Result<real, EvaluationError>)
    ensures r.Failure? <==> metric !in desired || desired[metric] == 0.0
    ensures r.Failure? ==> r.error == if metric !in desired then NoDesiredValue else ZeroDesiredValue
  {
    if metric !in desired then Failure(NoDesiredValue)
    else
      var d := desired[metric];
      if d == 0.0 then Failure(ZeroDesiredValue)
      else Success(1.0 - RealMin(Abs(d - ScoredAverage(average)) / d, 1.0))
  }

  /** For a positive desired value the score lies in [0, 1], and it is 1 exactly at the desired value. */
  lemma MetricScoreRange(desired: map<Metric, real>, metric: Metric, average: real)
    requires metric in desired && desired[metric] > 0.0
    ensures var score := MetricScore(desired, metric, average).value;
      && 0.0 <= score <= 1.0
      && (score == 1.0 <==> ScoredAverage(average) == desired[metric])
  {
    var d := desired[metric];
    var a := ScoredAverage(average);
    DivNonNegative(Abs(d - a), d);
    if Abs(d - a) / d == 0.0 {
      assert Abs(d - a) == (Abs(d - a) / d) * d;
    }
  }

  /** For a positive desired value, an average closer to it never scores lower. */
  lemma MetricScoreCloser(desired: map<Metric, real>, metric: Metric, a1: real, a2: real)
    requires metric in desired && desired[metric] > 0.0
    requires Abs(desired[metric] - ScoredAverage(a1)) <= Abs(desired[metric] - ScoredAverage(a2))
    ensures MetricScore(desired, metric, a1).value >= MetricScore(desired, metric, a2).value
  {
    var d := desired[metric];
    DivMonotone(Abs(d - ScoredAverage(a1)), Abs(d - ScoredAverage(a2)), d);
  }

  /** An average at least the desired value away from it scores 0. */
  lemma MetricScoreFar(desired: map<Metric, real>, metric: Metric, average: real)
    requires metric in desired && desired[metric] > 0.0
    requires Abs(desired[metric] - ScoredAverage(average)) >= desired[metric]
    ensures MetricScore(desired, metric, average) == Success(0.0)
  {
    var d := desired[metric];
    DivMonotone(d, Abs(d - ScoredAverage(average)), d);
  }

  /** The mean of one metric's measurements; an empty list raises. */
  function MeanOf(metric: Metric, values: seq<real>): (r: Result<real, EvaluationError>)
    ensures r.Success? <==> values != []
    ensures r.Success? ==> r.value * |values| as real == Sum(values)
  {
    var m := Mean(values);
    if m.None? then Failure(EmptyMeasurements) else Success(m.value)
  }

  /** Every list of one character averaged. */
  function AverageOf(id: CharacterId, lists: CharacterAllMeasurements): Result<Dict<Metric, real>, EvaluationError>
  {
    TryMapItems(lists, MeanOf)
  }

  /** Every averaged metric of one character scored. */
  function ScoresOf(desired: map<Metric, real>, averages: Dict<Metric, real>): Result<Dict<Metric, real>, EvaluationError>
  {
    TryMapItems(averages, (metric: Metric, average: real) => MetricScore(desired, metric, average))
  }

  /** A character's fitness: the mean of its metric scores; a character without metrics raises. */
  function FitnessOf(id: CharacterId, scores: Dict<Metric, real>): (r: Result<real, EvaluationError>)
    ensures r.Success? <==> scores != []
  {
    var m := Mean(Values(scores));
    if m.None? then Failure(NoMetrics) else Success(m.value)
  }

  /** The fitness of every character: all characters are averaged first, then all are scored,
      then each character's scores are averaged. */
  function EvaluateFitnessAllCharacters(desired: map<Metric, real>, all: CharactersAllMeasurements)
    : Result<Dict<CharacterId, real>, EvaluationError>
  {
    var averaged :- TryMapItems(all, AverageOf);
    var scored :- TryMapItems(averaged, (id: CharacterId, averages: Dict<Metric, real>) => ScoresOf(desired, averages));
    TryMapItems(scored, FitnessOf)
  }

  /** The character has at least one metric, every list a measurement, every metric a nonzero desired value. */
  ghost predicate CharacterScorable(desired: map<Metric, real>, lists: CharacterAllMeasurements) {
    && lists != []
    && forall r :: 0 <= r < |lists| ==> lists[r].1 != [] && lists[r].0 in desired && desired[lists[r].0] != 0.0
  }

  ghost predicate Scorable(desired: map<Metric, real>, all: CharactersAllMeasurements) {
    forall q :: 0 <= q < |all| ==> CharacterScorable(desired, all[q].1)
  }

  /** A character's fitness computed directly from its lists: the mean, over its metrics, of the
      score of the mean of each metric's list. */
  ghost function CharacterFitness(desired: map<Metric, real>, lists: CharacterAllMeasurements): real
    requires CharacterScorable(desired, lists)
  {
    Mean(seq(|lists|, r requires 0 <= r < |lists| =>
      MetricScore(desired, lists[r].0, Mean(lists[r].1).value).value)).value
  }

  /** Averaging one character succeeds exactly when each of its lists is non-empty, and keeps its metrics in order. */
  lemma AverageOfSpec(id: CharacterId, lists: CharacterAllMeasurements)
    ensures AverageOf(id, lists).Success? <==> forall r :: 0 <= r < |lists| ==> lists[r].1 != []
    ensures AverageOf(id, lists).Success? ==>
      var averages := AverageOf(id, lists).value;
      |averages| == |lists| && forall r :: 0 <= r < |lists| ==> averages[r] == (lists[r].0, Mean(lists[r].1).value)
  {
    var t := AverageOf(id, lists);
    if t.Success? {
      forall r | 0 <= r < |lists| ensures t.value[r] == (lists[r].0, Mean(lists[r].1).value) {
        assert t.value[r].0 == Keys(t.value)[r];
      }
    }
  }

  /** The averages of a character's non-empty lists, in metric order. */
  ghost function Averages(lists: CharacterAllMeasurements): (r: Dict<Metric, real>)
    requires forall r :: 0 <= r < |lists| ==> lists[r].1 != []
    ensures Keys(r) == Keys(lists)
  {
    seq(|lists|, r requires 0 <= r < |lists| => (lists[r].0, Mean(lists[r].1).value))
  }

  /** Averaging non-empty lists succeeds with their means. */
  lemma AveragesOf(lists: CharacterAllMeasurements)
    requires forall r :: 0 <= r < |lists| ==> lists[r].1 != []
    ensures TryMapItems(lists, MeanOf) == Success(Averages(lists))
  {
    var t := TryMapItems(lists, MeanOf);
    assert t.Success?;
    forall r | 0 <= r < |lists| ensures t.value[r] == Averages(lists)[r] {
      assert t.value[r].0 == Keys(t.value)[r];
    }
    assert t.value == Averages(lists);
  }

  /** Scoring one character succeeds exactly when each metric has a nonzero desired value, and keeps its metrics in order. */
  lemma ScoresOfSpec(desired: map<Metric, real>, averages: Dict<Metric, real>)
    ensures ScoresOf(desired, averages).Success? <==>
      forall r :: 0 <= r < |averages| ==> averages[r].0 in desired && desired[averages[r].0] != 0.0
    ensures ScoresOf(desired, averages).Success? ==>
      var scores := ScoresOf(desired, averages).value;
      |scores| == |averages| && forall r :: 0 <= r < |averages| ==>
        scores[r] == (averages[r].0, MetricScore(desired, averages[r].0, averages[r].1).value)
  {
    var t := ScoresOf(desired, averages);
    if t.Success? {
      forall r | 0 <= r < |averages|
        ensures t.value[r] == (averages[r].0, MetricScore(desired, averages[r].0, averages[r].1).value)
      {
        assert t.value[r].0 == Keys(t.value)[r];
      }
    }
  }

  /** One character with non-empty lists is averaged, and then scored exactly when each of its metrics has a
      nonzero desired value, each score being that of the mean of the metric's list. */
  lemma ScoresAfterAverage(desired: map<Metric, real>, id: CharacterId, lists: CharacterAllMeasurements)
    requires forall r :: 0 <= r < |lists| ==> lists[r].1 != []
    ensures AverageOf(id, lists).Success?
    ensures var scored := ScoresOf(desired, AverageOf(id, lists).value);
      && (scored.Success? <==> forall r :: 0 <= r < |lists| ==> lists[r].0 in desired && desired[lists[r].0] != 0.0)
      && (scored.Success? ==> |scored.value| == |lists| && forall r :: 0 <= r < |lists| ==>
            scored.value[r] == (lists[r].0, MetricScore(desired, lists[r].0, Mean(lists[r].1).value).value))
  {
    AverageOfSpec(id, lists);
    ScoresOfSpec(desired, AverageOf(id, lists).value);
  }

  /** The mean of a character's metric scores is its directly computed fitness. */
  lemma FitnessFromScores(desired: map<Metric, real>, id: CharacterId, lists: CharacterAllMeasurements, scores: Dict<Metric, real>)
    requires CharacterScorable(desired, lists)
    requires |scores| == |lists|
    requires forall r :: 0 <= r < |lists| ==>
      scores[r] == (lists[r].0, MetricScore(desired, lists[r].0, Mean(lists[r].1).value).value)
    ensures FitnessOf(id, scores) == Success(CharacterFitness(desired, lists))
  {
    assert Values(scores) == seq(|lists|, r requires 0 <= r < |lists| =>
      MetricScore(desired, lists[r].0, Mean(lists[r].1).value).value);
  }

  /** On scorable characters, evaluation gives each character its directly computed fitness. */
  lemma EvaluateScorable(desired: map<Metric, real>, all: CharactersAllMeasurements)
    requires Scorable(desired, all)
    ensures EvaluateFitnessAllCharacters(desired, all).Success?
    ensures var fitness := EvaluateFitnessAllCharacters(desired, all).value;
      && Keys(fitness) == Keys(all)
      && forall q :: 0 <= q < |all| ==> fitness[q].1 == CharacterFitness(desired, all[q].1)
  {
    forall q | 0 <= q < |all| ensures AverageOf(all[q].0, all[q].1).Success? {
      ScoresAfterAverage(desired, all[q].0, all[q].1);
    }
    var averaged := TryMapItems(all, AverageOf).value;
    var scoring := (id: CharacterId, averages: Dict<Metric, real>) => ScoresOf(desired, averages);
    forall q | 0 <= q < |all|
      ensures averaged[q] == (all[q].0, AverageOf(all[q].0, all[q].1).value)
      ensures scoring(averaged[q].0, averaged[q].1).Success?
    {
      assert averaged[q].0 == Keys(averaged)[q];
      ScoresAfterAverage(desired, all[q].0, all[q].1);
    }
    var scored := TryMapItems(averaged, scoring).value;
    forall q | 0 <= q < |all| ensures FitnessOf(scored[q].0, scored[q].1) == Success(CharacterFitness(desired, all[q].1)) {
      assert scored[q].0 == Keys(scored)[q];
      ScoresAfterAverage(desired, all[q].0, all[q].1);
      FitnessFromScores(desired, all[q].0, all[q].1, scored[q].1);
    }
    var fitness := TryMapItems(scored, FitnessOf);
    assert EvaluateFitnessAllCharacters(desired, all) == fitness;
  }

  /** A character that is not scorable makes the whole evaluation raise. */
  lemma EvaluateUnscorable(desired: map<Metric, real>, all: CharactersAllMeasurements, q: nat)
    requires q < |all| && !CharacterScorable(desired, all[q].1)
    ensures EvaluateFitnessAllCharacters(desired, all).Failure?
  {
    var lists := all[q].1;
    AverageOfSpec(all[q].0, lists);
    var averaged := TryMapItems(all, AverageOf);
    if averaged.Success? {
      var scoring := (id: CharacterId, averages: Dict<Metric, real>) => ScoresOf(desired, averages);
      assert averaged.value[q] == (all[q].0, AverageOf(all[q].0, lists).value) by {
        assert averaged.value[q].0 == Keys(averaged.value)[q];
      }
      ScoresAfterAverage(desired, all[q].0, lists);
      var scored := TryMapItems(averaged.value, scoring);
      if scored.Success? {
        assert scored.value[q].1 == ScoresOf(desired, AverageOf(all[q].0, lists).value).value;
        assert lists == [];
        assert FitnessOf(scored.value[q].0, scored.value[q].1).Failure?;
      }
    }
  }

  /** Evaluating all characters succeeds exactly when every character is scorable. */
  lemma EvaluateFitnessAllCharactersSucceeds(desired: map<Metric, real>, all: CharactersAllMeasurements)
    ensures EvaluateFitnessAllCharacters(desired, all).Success? <==> Scorable(desired, all)
  {
    if Scorable(desired, all) {
      EvaluateScorable(desired, all);
    } else {
      var q :| 0 <= q < |all| && !CharacterScorable(desired, all[q].1);
      EvaluateUnscorable(desired, all, q);
    }
  }

  /** With positive desired values every fitness lies in [0, 1]. */
  lemma CharacterFitnessRange(desired: map<Metric, real>, lists: CharacterAllMeasurements)
    requires CharacterScorable(desired, lists)
    requires forall r :: 0 <= r < |lists| ==> desired[lists[r].0] > 0.0
    ensures 0.0 <= CharacterFitness(desired, lists) <= 1.0
  {
    var scores := seq(|lists|, r requires 0 <= r < |lists| =>
      MetricScore(desired, lists[r].0, Mean(lists[r].1).value).value);
    forall r | 0 <= r < |lists| ensures 0.0 <= scores[r] <= 1.0 {
      MetricScoreRange(desired, lists[r].0, Mean(lists[r].1).value);
    }
    MeanBounds(scores, 0.0, 1.0);
  }

  // ---------------------------------------------------------------------------
  // The evaluated population

  /** Each member with its fitness as a one-element list; a member without a fitness raises. */
  function FitnessOutput(population: seq<Individual>, fitness: Dict<CharacterId, real>): (r: Result<seq<EvaluatedIndividual>, EvaluationError>)
    ensures r.Success? <==> forall i :: 0 <= i < |population| ==> population[i].characterId in Keys(fitness)
    ensures r.Success? ==> Individuals(r.value) == population
    ensures r.Success? ==> forall i :: 0 <= i < |population| ==>
      r.value[i].feasible.None? && r.value[i].fitness.Some? && |r.value[i].fitness.value| == 1
      && (population[i].characterId, r.value[i].fitness.value[0]) in fitness
  {
    if forall i :: 0 <= i < |population| ==> population[i].characterId in Keys(fitness) then
      Success(seq(|population|, i requires 0 <= i < |population| =>
        EvaluatedIndividual(population[i], Some([Get(fitness, population[i].characterId).value]), None)))
    else Failure(Unmeasured)
  }

  lemma OutputEntry(population: seq<Individual>, fitness: Dict<CharacterId, real>, i: nat)
    requires FitnessOutput(population, fitness).Success? && i < |population|
    ensures FitnessOutput(population, fitness).value[i].fitness == Some([Get(fitness, population[i].characterId).value])
  {
  }

  /** Simulation results to an evaluated population: group, average, score, and look each member up. */
  function EvaluateResults(desired: map<Metric, real>, population: seq<Individual>, results: seq<SimulationResult>)
    : Result<seq<EvaluatedIndividual>, EvaluationError>
  {
    var grouped :- GroupAll(ToMeasurements(results));
    var fitness :- EvaluateFitnessAllCharacters(desired, grouped);
    FitnessOutput(population, fitness)
  }

  /** The fitness a character should get: the mean over the metrics of the score of the mean of all
      its measurements of that metric. */
  ghost function ExpectedFitness(desired: map<Metric, real>, apps: seq<Appearance>, keys: seq<Metric>, c: CharacterId): real
    requires keys != [] && forall r :: 0 <= r < |keys| ==> keys[r] in desired && desired[keys[r]] != 0.0
    requires forall r :: 0 <= r < |keys| ==> Column(apps, c, r) != []
  {
    Mean(seq(|keys|, r requires 0 <= r < |keys| => MetricScore(desired, keys[r], Mean(Column(apps, c, r)).value).value)).value
  }

  lemma {:induction false} AppearancesShape(ms: seq<SimulationMeasurements>, keys: seq<Metric>)
    requires forall j :: 0 <= j < |ms| ==> WellFormedResult(ms[j], keys)
    ensures var apps := Appearances(ms, keys);
      && |apps| == 2 * |ms|
      && (forall a :: 0 <= a < |apps| ==> |apps[a].1| == |keys|)
      && forall j :: 0 <= j < |ms| ==>
           apps[2 * j].0 == ms[j].charactersId[0] && apps[2 * j + 1].0 == ms[j].charactersId[1]
  {
    if ms != [] {
      var prefix := ms[..|ms| - 1];
      assert forall j :: 0 <= j < |prefix| ==> prefix[j] == ms[j];
      AppearancesShape(prefix, keys);
      assert Keys(ms[|ms| - 1].metrics) == keys;
    }
  }

  /** The metrics of characters that took part have non-empty columns. */
  lemma ColumnsOfParticipant(ms: seq<SimulationMeasurements>, keys: seq<Metric>, c: CharacterId)
    requires forall j :: 0 <= j < |ms| ==> WellFormedResult(ms[j], keys)
    requires c in AppIds(Appearances(ms, keys))
    ensures forall r :: 0 <= r < |keys| ==> Column(Appearances(ms, keys), c, r) != []
  {
    var apps := Appearances(ms, keys);
    AppearancesShape(ms, keys);
    forall r | 0 <= r < |keys| ensures Column(apps, c, r) != [] {
      ColumnLength(apps, c, r);
    }
  }

  /** Grouping well-formed results gives every character that took part, once, with the metrics in the
      reported order and, for each metric, its non-empty column of values. */
  lemma GroupedColumns(ms: seq<SimulationMeasurements>, keys: seq<Metric>)
    requires Distinct(keys)
    requires forall j :: 0 <= j < |ms| ==> WellFormedResult(ms[j], keys)
    ensures GroupAll(ms).Success?
    ensures var grouped := GroupAll(ms).value;
      && UniqueKeys(grouped)
      && (forall c :: c in Keys(grouped) <==> c in AppIds(Appearances(ms, keys)))
      && forall q :: 0 <= q < |grouped| ==>
           && |grouped[q].1| == |keys|
           && forall r :: 0 <= r < |keys| ==>
                grouped[q].1[r] == (keys[r], Column(Appearances(ms, keys), grouped[q].0, r))
                && Column(Appearances(ms, keys), grouped[q].0, r) != []
  {
    GroupAllSpec(ms, keys);
    var grouped := GroupAll(ms).value;
    var apps := Appearances(ms, keys);
    forall q | 0 <= q < |grouped|
      ensures |grouped[q].1| == |keys|
      ensures forall r :: 0 <= r < |keys| ==>
        grouped[q].1[r] == (keys[r], Column(apps, grouped[q].0, r)) && Column(apps, grouped[q].0, r) != []
    {
      var lists := grouped[q].1;
      assert grouped[q].0 == Keys(grouped)[q];
      ColumnsOfParticipant(ms, keys, grouped[q].0);
      assert Keys(lists) == keys;
      forall r | 0 <= r < |lists| ensures lists[r].0 == keys[r] {
        assert lists[r].0 == Keys(lists)[r];
      }
    }
  }

  /** The grouped measurements of well-formed results are scorable when every metric has a nonzero desired value,
      and each character's fitness is the expected one. */
  lemma GroupedFitness(desired: map<Metric, real>, ms: seq<SimulationMeasurements>, keys: seq<Metric>)
    requires Distinct(keys) && keys != [] && forall r :: 0 <= r < |keys| ==> keys[r] in desired && desired[keys[r]] != 0.0
    requires forall j :: 0 <= j < |ms| ==> WellFormedResult(ms[j], keys)
    ensures GroupAll(ms).Success?
    ensures var grouped := GroupAll(ms).value;
      && UniqueKeys(grouped)
      && (forall c :: c in Keys(grouped) <==> c in AppIds(Appearances(ms, keys)))
      && Scorable(desired, grouped)
      && forall q :: 0 <= q < |grouped| ==>
           (forall r :: 0 <= r < |keys| ==> Column(Appearances(ms, keys), grouped[q].0, r) != [])
           && CharacterFitness(desired, grouped[q].1) == ExpectedFitness(desired, Appearances(ms, keys), keys, grouped[q].0)
  {
    GroupedColumns(ms, keys);
    var grouped := GroupAll(ms).value;
    var apps := Appearances(ms, keys);
    forall q | 0 <= q < |grouped|
      ensures CharacterScorable(desired, grouped[q].1)
      ensures CharacterFitness(desired, grouped[q].1) == ExpectedFitness(desired, apps, keys, grouped[q].0)
    {
      var lists := grouped[q].1;
      assert seq(|lists|, r requires 0 <= r < |lists| => MetricScore(desired, lists[r].0, Mean(lists[r].1).value).value)
          == seq(|keys|, r requires 0 <= r < |keys| => MetricScore(desired, keys[r], Mean(Column(apps, grouped[q].0, r)).value).value);
    }
  }

  /** Looking a member up in fitness values computed per grouped character gives its expected fitness. */
  lemma LookupExpected(desired: map<Metric, real>, apps: seq<Appearance>, keys: seq<Metric>,
                       grouped: CharactersAllMeasurements, fitness: Dict<CharacterId, real>, c: CharacterId)
    requires keys != [] && forall r :: 0 <= r < |keys| ==> keys[r] in desired && desired[keys[r]] != 0.0
    requires UniqueKeys(grouped) && Keys(fitness) == Keys(grouped) && c in Keys(grouped)
    requires forall q :: 0 <= q < |grouped| ==>
      (forall r :: 0 <= r < |keys| ==> Column(apps, grouped[q].0, r) != [])
      && fitness[q].1 == ExpectedFitness(desired, apps, keys, grouped[q].0)
    ensures forall r :: 0 <= r < |keys| ==> Column(apps, c, r) != []
    ensures Get(fitness, c) == Some(ExpectedFitness(desired, apps, keys, c))
  {
    var q :| 0 <= q < |grouped| && Keys(grouped)[q] == c;
    assert fitness[q].0 == Keys(fitness)[q] == c;
    assert UniqueKeys(fitness) by {
      forall a, b | 0 <= a < b < |fitness| ensures fitness[a].0 != fitness[b].0 {
        assert fitness[a].0 == Keys(grouped)[a] == grouped[a].0;
        assert fitness[b].0 == Keys(grouped)[b] == grouped[b].0;
      }
    }
    GetAt(fitness, q);
  }

  /** Grouping then scoring well-formed results gives every grouped character its expected fitness. */
  lemma GroupedExpected(desired: map<Metric, real>, ms: seq<SimulationMeasurements>, keys: seq<Metric>)
    requires Distinct(keys) && keys != [] && forall r :: 0 <= r < |keys| ==> keys[r] in desired && desired[keys[r]] != 0.0
    requires forall j :: 0 <= j < |ms| ==> WellFormedResult(ms[j], keys)
    ensures GroupAll(ms).Success?
    ensures var grouped := GroupAll(ms).value;
      var apps := Appearances(ms, keys);
      && UniqueKeys(grouped)
      && (forall c :: c in Keys(grouped) <==> c in AppIds(apps))
      && EvaluateFitnessAllCharacters(desired, grouped).Success?
      && var fitness := EvaluateFitnessAllCharacters(desired, grouped).value;
      && Keys(fitness) == Keys(grouped)
      && forall q :: 0 <= q < |grouped| ==>
           (forall r :: 0 <= r < |keys| ==> Column(apps, grouped[q].0, r) != [])
           && fitness[q].1 == ExpectedFitness(desired, apps, keys, grouped[q].0)
  {
    GroupedFitness(desired, ms, keys);
    EvaluateScorable(desired, GroupAll(ms).value);
  }

  /** A character that appears in well-formed results is scored with its expected fitness. */
  lemma MemberExpected(desired: map<Metric, real>, ms: seq<SimulationMeasurements>, keys: seq<Metric>, c: CharacterId)
    requires Distinct(keys) && keys != [] && forall r :: 0 <= r < |keys| ==> keys[r] in desired && desired[keys[r]] != 0.0
    requires forall j :: 0 <= j < |ms| ==> WellFormedResult(ms[j], keys)
    requires c in AppIds(Appearances(ms, keys))
    ensures GroupAll(ms).Success? && EvaluateFitnessAllCharacters(desired, GroupAll(ms).value).Success?
    ensures forall r :: 0 <= r < |keys| ==> Column(Appearances(ms, keys), c, r) != []
    ensures Get(EvaluateFitnessAllCharacters(desired, GroupAll(ms).value).value, c)
      == Some(ExpectedFitness(desired, Appearances(ms, keys), keys, c))
  {
    GroupedExpected(desired, ms, keys);
    var grouped := GroupAll(ms).value;
    LookupExpected(desired, Appearances(ms, keys), keys, grouped, EvaluateFitnessAllCharacters(desired, grouped).value, c);
  }

  /** End to end: when the results are well-formed, report the same distinct metrics, each with a nonzero desired
      value, and every member took part in some simulation, evaluation succeeds and gives each member, in
      population order, the mean over the metrics of the score of the mean of its measurements. */
  lemma EvaluateResultsSpec(desired: map<Metric, real>, population: seq<Individual>, results: seq<SimulationResult>, keys: seq<Metric>)
    requires Distinct(keys) && keys != [] && forall r :: 0 <= r < |keys| ==> keys[r] in desired && desired[keys[r]] != 0.0
    requires forall j :: 0 <= j < |results| ==> WellFormedResult(ToMeasurements(results)[j], keys)
    requires forall i :: 0 <= i < |population| ==>
      population[i].characterId in AppIds(Appearances(ToMeasurements(results), keys))
    ensures var e := EvaluateResults(desired, population, results);
      && e.Success?
      && Individuals(e.value) == population
      && forall i :: 0 <= i < |population| ==>
           var apps := Appearances(ToMeasurements(results), keys);
           (forall r :: 0 <= r < |keys| ==> Column(apps, population[i].characterId, r) != [])
           && e.value[i].fitness == Some([ExpectedFitness(desired, apps, keys, population[i].characterId)])
  {
    var ms := ToMeasurements(results);
    var apps := Appearances(ms, keys);
    GroupedExpected(desired, ms, keys);
    var grouped := GroupAll(ms).value;
    var fitness := EvaluateFitnessAllCharacters(desired, grouped).value;
    var e := FitnessOutput(population, fitness);
    assert EvaluateResults(desired, population, results) == e;
    forall i | 0 <= i < |population|
      ensures (forall r :: 0 <= r < |keys| ==> Column(apps, population[i].characterId, r) != [])
      ensures e.value[i].fitness == Some([ExpectedFitness(desired, apps, keys, population[i].characterId)])
    {
      MemberExpected(desired, ms, keys, population[i].characterId);
      OutputEntry(population, fitness, i);
    }
  }

  /** When the queue answers every task and the population has two members or more, every member took part
      in some simulation, so the lookup of its fitness cannot fail. */
  lemma EveryMemberMeasured(population: seq<Individual>, metrics: seq<Metric>, ids: nat -> string,
                            results: seq<SimulationResult>, keys: seq<Metric>)
    requires 2 <= |population|
    requires var tasks := SimulationTasks(population, metrics, ids);
      forall t :: 0 <= t < |tasks| ==> exists k :: 0 <= k < |results| && results[k].simulationData == tasks[t]
    requires forall j :: 0 <= j < |results| ==> WellFormedResult(ToMeasurements(results)[j], keys)
    ensures forall i :: 0 <= i < |population| ==>
      population[i].characterId in AppIds(Appearances(ToMeasurements(results), keys))
  {
    var tasks := SimulationTasks(population, metrics, ids);
    forall i | 0 <= i < |population|
      ensures population[i].characterId in AppIds(Appearances(ToMeasurements(results), keys))
    {
      var other := if i == 0 then 1 else 0;
      var a, b := Min(i, other), Max(i, other);
      SimulationTasksCover(population, metrics, ids, a, b);
      var t :| 0 <= t < |tasks| && tasks[t].charactersConfigs == [population[a], population[b]];
      var k :| 0 <= k < |results| && results[k].simulationData == tasks[t];
      AppearsIn(results, keys, k, if i == a then 0 else 1);
    }
  }

  /** The character at either position of a well-formed result appears among the appearances. */
  lemma AppearsIn(results: seq<SimulationResult>, keys: seq<Metric>, k: nat, pos: nat)
    requires forall j :: 0 <= j < |results| ==> WellFormedResult(ToMeasurements(results)[j], keys)
    requires k < |results| && pos < 2
    ensures var configs := results[k].simulationData.charactersConfigs;
      pos < |configs| && configs[pos].characterId in AppIds(Appearances(ToMeasurements(results), keys))
  {
    var ms := ToMeasurements(results);
    var apps := Appearances(ms, keys);
    AppearancesShape(ms, keys);
    assert WellFormedResult(ms[k], keys);
    assert ms[k].charactersId == ConfigIds(results[k].simulationData.charactersConfigs);
    assert AppIds(apps)[2 * k + pos] == apps[2 * k + pos].0;
  }

  // ---------------------------------------------------------------------------
  // The evaluator

  /** The fitness evaluator; it keeps the results and the grouped measurements of the last population. */
  class SimulationFitnessEvaluation {
    const metrics: seq<Metric>
    const desiredValues: map<Metric, real>
    var prevSimulationResults: seq<SimulationResult>
    var prevMeasuresByCharacterId: CharactersAllMeasurements

    constructor (metrics: seq<Metric>, desiredValues: map<Metric, real>)
      ensures this.metrics == metrics && this.desiredValues == desiredValues
      ensures prevSimulationResults == [] && prevMeasuresByCharacterId == []
    {
      this.metrics := metrics;
      this.desiredValues := desiredValues;
      prevSimulationResults := [];
      prevMeasuresByCharacterId := [];
    }

    /** Simulates every pair of the population, with the t-th simulation id `ids(t)`, through the queue
        `simulate`; stores the results, then the grouped measurements if grouping succeeds; and evaluates. */
    method EvaluateOnePopulation(population: seq<Individual>, ids: nat -> string,
                                 simulate: seq<SimulationTask> -> seq<SimulationResult>)
      returns (r: Result<seq<EvaluatedIndividual>, EvaluationError>)
      modifies this
      ensures prevSimulationResults == simulate(SimulationTasks(population, metrics, ids))
      ensures var grouped := GroupAll(ToMeasurements(prevSimulationResults));
        prevMeasuresByCharacterId == if grouped.Success? then grouped.value else old(prevMeasuresByCharacterId)
      ensures r == EvaluateResults(desiredValues, population, prevSimulationResults)
    {
      var tasks := SimulationTasks(population, metrics, ids);
      var results := simulate(tasks);
      prevSimulationResults := results;
      var grouped := GroupAllMeasuresByCharacter(ToMeasurements(results));
      if grouped.Failure? {
        return Failure(grouped.error);
      }
      prevMeasuresByCharacterId := grouped.value;
      var fitness := EvaluateFitnessAllCharacters(desiredValues, grouped.value);
      if fitness.Failure? {
        return Failure(fitness.error);
      }
      r := FitnessOutput(population, fitness.value);
    }
  }
}
