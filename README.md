# solai evolutionary algorithm: a Dafny model of its core

This project models the generational machinery of the solai evolutionary algorithm, which evolves game
characters (genomes made of a radius, a move velocity and a list of abilities). It proves properties of
that machinery. The model covers these components:

- **Fitness-and-novelty evolver** (`FitnessNovelty`):
  - ranks an evaluated population by the sum of each fitness list;
  - turns the configured shares into counts with Python's round-half-to-even;
  - builds the next generation from crossover children, mutate-only copies, new individuals and unchanged elites;
  - keeps a capacity-bounded novelty archive. Candidates are scored by in-batch novelty, a full archive admits a candidate only when it strictly beats the least novel entry, and every stored novelty is then recomputed as a k-nearest-neighbour value.
- **Simulation fitness** (`SimulationFitness`):
  - simulates every pair of the population;
  - groups the per-metric measurements by character, averages them, and scores each average against a desired value as `1 - min(|d - m| / d, 1)`, with a zero average read as 0.001;
  - averages the metric scores into one fitness.
- **Constrained novelty evaluation** (`ConstrainedNovelty`): simulates every member against fixed opponents, repeated a configured number of times. A member is feasible when a large enough share of its averaged metrics falls in closed ranges.
- **Novelty simulation fitness** (`NoveltySimulationFitness`): simulates every member against every individual of the novelty archive and scores with the desired-value fitness. With an empty archive, every member gets fitness `[0]`.
- **Evolver loop** (`Evolver`): the loop that evaluates, evolves and then asks the end criterion, and the fixed-generations end criterion.
- **Legacy generational algorithm** (`Evolution`):
  - keeps the fittest fifth of the population, at least two;
  - makes one child per pair of survivors by swapping one ability and giving the child a fresh id;
  - fills the population up with mutated clones of children.

  Its mutators scale radius, move velocity and numeric ability attributes by a factor in [0.5, 1.5) with a one-sided clamp, and flip flags.
- **Evolution data analysis** (`EvolutionData`): the feasibility filter, the pairwise-distance diversity, the most diverse six-member sub-population, the average diversity and the per-run statistics.

Shared modules support these components:

| module | contents |
|---|---|
| `Wrappers` | Option and Result |
| `PySemantics` | round-half-even, truncation, Python prefix slicing, sum and `statistics.mean` over reals |
| `Itertools` | `combinations`, consecutive chunks, list repetition, nested comprehensions |
| `PyDict` | insertion-ordered dictionaries as association lists |
| `Sorting` | a stable insertion sort, as `sorted` |
| `EvolutionTypes` | the genome and evaluation records |

Modelling choices:

- Python floats are modelled as exact reals.
- The genome distance is a function parameter about which nothing is assumed.
- The simulation queue is a function from the pushed tasks to the returned results. Fresh simulation ids are a function from the task index.
- `random.random`, `random.uniform`, `random.randint` and `uuid.uuid4` are a stream of draws held by `Evolution.RandomSource`:
  - the random draws are consumed in order;
  - uuids are taken from a separate counter.
- The crossover, the mutations and the new-individuals producer of the fitness-and-novelty evolver come from code that is not part of this model, so they are function parameters. Each is a deterministic function of its inputs: equal parents give equal children and an equal individual mutates the same way.
- The evaluator and the population evolver of the evolver loop are objects that keep state between calls (previous results, a novelty archive they may share). They are functions that take and return a state, which the loop threads from call to call.
- Genomes and archives that the source changes in place are class fields that the methods reassign.
- Dictionaries whose order or values are iterated are association lists. Dictionaries used only for lookup are Dafny maps.
- The exceptions of the modelled logic are a `Failure` of a `Result`. This covers a missing key, a division by zero, the mean of an empty list and `randint` over an empty range. The exceptions listed under "Left out" are not: the `AttributeError`s and constructor `TypeError`s of the name-resolution failures, and the `TypeError` of a `None` survivor, which the model reports as a missing-character error.

## Model

| member | source | states |
|---|---|---|
| PySemantics.RoundHalfEven | solai_evolutionary_algorithm/evolution/fitness_and_novelty_evolver.py:270-272 | Python `round`: the result is within 0.5 of the input, and an exact half goes to the even neighbour |
| PySemantics.RoundHalfEvenUnique | solai_evolutionary_algorithm/evolution/fitness_and_novelty_evolver.py:270-272 | any integer within 0.5 of x that is even on an exact half is `RoundHalfEven(x)`, so the rounding is fully determined |
| PySemantics.Trunc | solai_evolutionary_algorithm/evolution/evolution.py:151-154 | `int()` truncates toward zero: for x >= 0 the result is the floor, for x < 0 the ceiling |
| PySemantics.Take | solai_evolutionary_algorithm/evolution/fitness_and_novelty_evolver.py:110-123 | Python `s[:k]` is a prefix of s of length min(k, \|s\|), or \|s\| + k clamped at 0 for a negative k |
| PySemantics.SumPermutation | solai_evolutionary_algorithm/evolution/fitness_and_novelty_evolver.py:263-267 | reordering a list does not change its sum |
| PySemantics.Mean | solai_evolutionary_algorithm/evaluation/simulation/simulation_fitness_evaluation.py:153-157 | `statistics.mean` exists exactly for a non-empty list, and times the length it equals the sum |
| PySemantics.MeanBounds | solai_evolutionary_algorithm/evaluation/simulation/simulation_fitness_evaluation.py:135-136 | the mean of values in [lo, hi] lies in [lo, hi] |
| Itertools.PairsLength | solai_evolutionary_algorithm/evaluation/simulation/simulation_fitness_evaluation.py:108-109 | `combinations(s, 2)` has \|s\|(\|s\|-1)/2 pairs |
| Itertools.PairsMembers | solai_evolutionary_algorithm/evaluation/simulation/simulation_fitness_evaluation.py:108-109 | (a, b) is a pair exactly when a occurs before b in s |
| Itertools.CombinationsShape | solai_evolutionary_algorithm/evolution_data/evolution_data.py:81 | every k-combination has k members, and there are none exactly when \|s\| < k |
| Itertools.PairsAreCombinations | solai_evolutionary_algorithm/evolution/evolution.py:77 | the pairs of s are its 2-combinations, in the same order |
| Itertools.Chunks2Even | solai_evolutionary_algorithm/evolution/fitness_and_novelty_evolver.py:111-114 | an even-length list splits into \|s\|/2 chunks, the i-th being elements 2i and 2i+1 |
| Itertools.Chunks2Flatten | solai_evolutionary_algorithm/evolution/fitness_and_novelty_evolver.py:111-118 | concatenating the chunks gives back the list |
| Itertools.RepeatShape | solai_evolutionary_algorithm/evaluation/simulation/constrained_novelty_evaluation.py:83 | `count * s` has max(count, 0)·\|s\| elements, all from s |
| Itertools.RepeatAt | solai_evolutionary_algorithm/evaluation/simulation/constrained_novelty_evaluation.py:83 | element b·\|s\| + u of `count * s` is s[u] |
| Itertools.OuterMajorPairsLength | solai_evolutionary_algorithm/evaluation/simulation/constrained_novelty_evaluation.py:77-81 | the nested comprehension has \|outer\|·\|inner\| pairs |
| Itertools.OuterMajorPairsMembers | solai_evolutionary_algorithm/evaluation/simulation/constrained_novelty_evaluation.py:77-81 | (a, b) occurs exactly when a is an inner and b an outer element |
| Itertools.OuterMajorPairsAt | solai_evolutionary_algorithm/evaluation/simulation/constrained_novelty_evaluation.py:77-81 | pair o·\|inner\| + x is (inner[x], outer[o]), outer-major |
| PyDict.Get | solai_evolutionary_algorithm/evaluation/simulation/simulation_fitness_evaluation.py:87 | a lookup succeeds exactly for a present key and returns a value stored under it |
| PyDict.PutGet | solai_evolutionary_algorithm/evaluation/simulation/simulation_fitness_evaluation.py:223-233 | after storing v under k, k reads v and every other key reads as before |
| PyDict.TryMapItems | solai_evolutionary_algorithm/evaluation/simulation/simulation_fitness_evaluation.py:138-141 | a dict comprehension that may raise succeeds exactly when every item maps, and keeps keys and order |
| Sorting.SortBy | solai_evolutionary_algorithm/evolution/fitness_and_novelty_evolver.py:75-79 | `sorted` returns a permutation of its input |
| Sorting.SortBySorted | solai_evolutionary_algorithm/evolution/fitness_and_novelty_evolver.py:75-79 | under a total preorder the result of `sorted` is ordered |
| Sorting.SortByKeyDesc | solai_evolutionary_algorithm/evolution/fitness_and_novelty_evolver.py:274-275 | `sorted(key=…, reverse=True)` is a permutation with non-increasing keys, and its last key is the minimum |
| Sorting.SortByKeyDescStable | solai_evolutionary_algorithm/evolution/fitness_and_novelty_evolver.py:75-79 | `sorted(key=…, reverse=True)` is stable: for every key value, the elements carrying it appear in the result in their input order |
| FitnessNovelty.FirstKeyError | solai_evolutionary_algorithm/evolution/fitness_and_novelty_evolver.py:67-73 | the error raised is that of the first individual without a non-empty fitness list, and none is raised when all have one |
| FitnessNovelty.Rank | solai_evolutionary_algorithm/evolution/fitness_and_novelty_evolver.py:67-79 | ranking succeeds exactly when every fitness is a non-empty list; it is then a permutation of the population with non-increasing fitness sums, in which the individuals sharing a fitness sum keep their order; otherwise it raises the first individual's error |
| FitnessNovelty.Share2AmountBounds | solai_evolutionary_algorithm/evolution/fitness_and_novelty_evolver.py:270-272 | a share in [0, 1] gives a count between 0 and the population size |
| FitnessNovelty.Share2AmountZero | solai_evolutionary_algorithm/evolution/fitness_and_novelty_evolver.py:270-272 | a zero share gives a zero count |
| FitnessNovelty.EvenCrossoverCount | solai_evolutionary_algorithm/evolution/fitness_and_novelty_evolver.py:94-101 | the crossover count is even, at most the raw count and at least the raw count minus one |
| FitnessNovelty.ValidConfigCounts | solai_evolutionary_algorithm/evolution/fitness_and_novelty_evolver.py:56-64 | a configuration that passes the constructor never asks a missing crossover or producer for anything |
| FitnessNovelty.MutateAppend | solai_evolutionary_algorithm/evolution/fitness_and_novelty_evolver.py:128-135 | the mutation fold applies the mutations left to right |
| FitnessNovelty.FlattenPairs | solai_evolutionary_algorithm/evolution/fitness_and_novelty_evolver.py:115-118 | concatenating two-child results gives twice as many children as pairs |
| FitnessNovelty.NextGenerationShape | solai_evolutionary_algorithm/evolution/fitness_and_novelty_evolver.py:94-142 | with shares in [0, 1] and a two-child crossover, the next generation has crossover + mutate-only + new + elitism members; the i-th parents are the (2i)-th and (2i+1)-th best; the elites are the best individuals, unchanged, at the end |
| FitnessNovelty.FourMemberGeneration | solai_evolutionary_algorithm/evolution/fitness_and_novelty_evolver.py:94-142 | four individuals with shares 0.5/0/0.25/0.25 give counts 2/0/1/1, four members, and the best individual as the last one |
| FitnessNovelty.DistancesToOthers | solai_evolutionary_algorithm/evolution/fitness_and_novelty_evolver.py:156-168 | a member has one distance per other member of the batch |
| FitnessNovelty.ScoredBatch | solai_evolutionary_algorithm/evolution/fitness_and_novelty_evolver.py:154-170 | scoring keeps the batch's size and order |
| FitnessNovelty.LeftShareSum | solai_evolutionary_algorithm/evolution/fitness_and_novelty_evolver.py:158-168 | the shares a member accumulates from earlier members are the sum of its distances from them divided by the batch size |
| FitnessNovelty.RightShareSum | solai_evolutionary_algorithm/evolution/fitness_and_novelty_evolver.py:158-168 | the same for the later members |
| FitnessNovelty.InBatchNoveltyIsDistanceSum | solai_evolutionary_algorithm/evolution/fitness_and_novelty_evolver.py:154-170 | a member's in-batch novelty is the sum of its distances to every other member divided by the batch size |
| FitnessNovelty.InBatchNoveltyNonNegative | solai_evolutionary_algorithm/evolution/fitness_and_novelty_evolver.py:154-170 | non-negative distances give a non-negative in-batch novelty |
| FitnessNovelty.EvaluateNoveltyWithinPopulation | solai_evolutionary_algorithm/evolution/fitness_and_novelty_evolver.py:154-170 | the accumulating loop over all pairs gives every member its in-batch novelty; a one-member batch gets none, so sorting it raises |
| FitnessNovelty.CreditRow | solai_evolutionary_algorithm/evolution/fitness_and_novelty_evolver.py:156-168 | the pairs (i, j), j > i, credit their shares in turn: afterwards member i holds its whole in-batch novelty and every later member its shares from members 0 to i |
| FitnessNovelty.ArchiveIds | solai_evolutionary_algorithm/evolution/fitness_and_novelty_evolver.py:254-257 | the ids of the archive members, in order |
| FitnessNovelty.CalculateNovelty | solai_evolutionary_algorithm/evolution/fitness_and_novelty_evolver.py:266-267 | archive novelty raises exactly when k = 0 |
| FitnessNovelty.DistancesToArchiveMembers | solai_evolutionary_algorithm/evolution/fitness_and_novelty_evolver.py:253-264 | a distance is counted for exactly the last archive member holding each id other than the candidate's own |
| FitnessNovelty.DistancesToDistinctArchive | solai_evolutionary_algorithm/evolution/fitness_and_novelty_evolver.py:253-264 | with distinct ids that differ from the candidate's, every archive member contributes its distance, in order |
| FitnessNovelty.DistancesIgnoreStoredNovelty | solai_evolutionary_algorithm/evolution/fitness_and_novelty_evolver.py:252-268 | the stored novelties never influence the distances |
| FitnessNovelty.SmallestPrefix | solai_evolutionary_algorithm/evolution/fitness_and_novelty_evolver.py:263-267 | the first min(k, \|d\|) of the ascending sort are the smallest distances, and the rest are no smaller |
| FitnessNovelty.ArchiveNoveltyIgnoresStoredNovelty | solai_evolutionary_algorithm/evolution/fitness_and_novelty_evolver.py:252-268 | archive novelty depends only on the archive's individuals |
| FitnessNovelty.ArchiveNoveltyNearest | solai_evolutionary_algorithm/evolution/fitness_and_novelty_evolver.py:252-268 | archive novelty is the sum of the min(k, \|D\|) smallest distances divided by k |
| FitnessNovelty.ArchiveNoveltyFewNeighbours | solai_evolutionary_algorithm/evolution/fitness_and_novelty_evolver.py:266-267 | with at most k distances, archive novelty is their sum divided by k, not their mean |
| FitnessNovelty.ArchiveNoveltyNonNegative | solai_evolutionary_algorithm/evolution/fitness_and_novelty_evolver.py:252-268 | non-negative distances and k > 0 give a non-negative archive novelty |
| FitnessNovelty.LeastNoveltyIsMinimum | solai_evolutionary_algorithm/evolution/fitness_and_novelty_evolver.py:205-213 | the last entry of the archive ordered by novelty holds the minimum stored novelty and is an archive member |
| FitnessNovelty.ConsiderIndividual | solai_evolutionary_algorithm/evolution/fitness_and_novelty_evolver.py:190-202 | considering a candidate never shrinks the archive and never takes it past capacity or its current size |
| FitnessNovelty.MultisetUpdateLast | solai_evolutionary_algorithm/evolution/fitness_and_novelty_evolver.py:202 | overwriting the last entry removes exactly that entry and adds the new one |
| FitnessNovelty.ConsiderIndividualRejects | solai_evolutionary_algorithm/evolution/fitness_and_novelty_evolver.py:191-202 | a full archive whose stored novelties are all at least the candidate's archive novelty is unchanged |
| FitnessNovelty.ConsiderIndividualAdmits | solai_evolutionary_algorithm/evolution/fitness_and_novelty_evolver.py:191-202 | a full archive with an entry strictly less novel than the candidate's archive novelty loses one minimum-novelty entry and gains the candidate, keeping its size; nothing else changes; the candidate carries its novelty relative to the archive re-sorted by novelty (lines 197-201), not the unsorted archive the decision used |
| FitnessNovelty.ConsiderIndividualDecision | solai_evolutionary_algorithm/evolution/fitness_and_novelty_evolver.py:195-213 | a full archive is re-sorted by novelty and its least novel entry replaced exactly when some stored novelty is strictly below the candidate's novelty relative to the unsorted archive (line 213); the new entry's novelty is computed over the re-sorted archive (lines 197-201); otherwise the archive is unchanged |
| FitnessNovelty.BeatsLeastNovelty | solai_evolutionary_algorithm/evolution/fitness_and_novelty_evolver.py:204-213 | a score beats the last entry of the archive ordered by novelty exactly when some stored novelty is strictly below it |
| FitnessNovelty.ConsiderAll | solai_evolutionary_algorithm/evolution/fitness_and_novelty_evolver.py:185-186 | considering candidates in turn never shrinks the archive and never exceeds max(size, capacity) |
| FitnessNovelty.Reset | solai_evolutionary_algorithm/evolution/fitness_and_novelty_evolver.py:217-222 | resetting keeps one entry per member |
| FitnessNovelty.Refreshed | solai_evolutionary_algorithm/evolution/fitness_and_novelty_evolver.py:224-226 | refreshing keeps one entry per member |
| FitnessNovelty.RefreshNovelties | solai_evolutionary_algorithm/evolution/fitness_and_novelty_evolver.py:215-226 | the in-place loop leaves every member with its novelty relative to the archive, although later members see updated entries |
| FitnessNovelty.ConsiderBatchBounded | solai_evolutionary_algorithm/evolution/fitness_and_novelty_evolver.py:172-202 | an archive within capacity stays within capacity after a batch, error or not |
| FitnessNovelty.ConsiderBatchRefreshes | solai_evolutionary_algorithm/evolution/fitness_and_novelty_evolver.py:172-188 | after a successful consideration every stored novelty equals the member's archive novelty relative to the final archive |
| FitnessNovelty.FitnessAndNoveltyEvolver.constructor | solai_evolutionary_algorithm/evolution/fitness_and_novelty_evolver.py:56-64 | a valid configuration gives an evolver with an empty, instance-owned archive |
| FitnessNovelty.FitnessAndNoveltyEvolver.GetOrderedNovelArchive | solai_evolutionary_algorithm/evolution/fitness_and_novelty_evolver.py:274-275 | the archive reordered, most novel first |
| FitnessNovelty.FitnessAndNoveltyEvolver.IsMoreNovelThanLeastNovelInArchive | solai_evolutionary_algorithm/evolution/fitness_and_novelty_evolver.py:204-213 | raises exactly when k = 0; otherwise true exactly when some stored novelty is strictly below the candidate's archive novelty |
| FitnessNovelty.FitnessAndNoveltyEvolver.ConsiderIndividualForNovelArchive | solai_evolutionary_algorithm/evolution/fitness_and_novelty_evolver.py:190-202 | below capacity the candidate is appended; otherwise the archive becomes `ConsiderIndividual` of the old archive (the decision over the archive as it stands, the stored novelty over the re-sorted archive), or raises unchanged when k = 0 |
| FitnessNovelty.FitnessAndNoveltyEvolver.UpdateNoveltyInArchive | solai_evolutionary_algorithm/evolution/fitness_and_novelty_evolver.py:215-226 | the archive becomes its refreshed form; with k = 0 a non-empty archive is left reset and the division raises |
| FitnessNovelty.FitnessAndNoveltyEvolver.ConsiderEach | solai_evolutionary_algorithm/evolution/fitness_and_novelty_evolver.py:184-186 | the loop leaves the error and the archive that considering the ordered candidates in turn gives |
| FitnessNovelty.FitnessAndNoveltyEvolver.ConsiderForNovelArchive | solai_evolutionary_algorithm/evolution/fitness_and_novelty_evolver.py:172-188 | the archive and error are those of `ConsiderBatch`: an empty archive takes the top `novel_archive_size` by in-batch novelty, otherwise each candidate is considered, then all novelties are refreshed |
| FitnessNovelty.FitnessAndNoveltyEvolver.Call | solai_evolutionary_algorithm/evolution/fitness_and_novelty_evolver.py:66-149 | one generation: a ranking error leaves the state alone; otherwise the best max(n/2, 2) go to the archive, which stays within capacity, and the result is the next generation built from the ranked individuals |
| FitnessNovelty.New | solai_evolutionary_algorithm/evolution/fitness_and_novelty_evolver.py:56-64 | construction fails exactly for a nonzero crossover share without a crossover or a nonzero new-individuals share without a producer, with that error |
| SimulationFitness.TasksFor | solai_evolutionary_algorithm/evaluation/simulation/simulation_fitness_evaluation.py:110-117 | one task per character pair |
| SimulationFitness.SimulationTasksCount | solai_evolutionary_algorithm/evaluation/simulation/simulation_fitness_evaluation.py:108-117 | a population of n gives n(n-1)/2 tasks |
| SimulationFitness.SimulationTaskAt | solai_evolutionary_algorithm/evaluation/simulation/simulation_fitness_evaluation.py:108-117 | task t has the t-th fresh id, the evaluator's metrics, and two members in population order |
| SimulationFitness.SimulationTasksCover | solai_evolutionary_algorithm/evaluation/simulation/simulation_fitness_evaluation.py:108-117 | every unordered pair of members is simulated |
| SimulationFitness.ConfigIds | solai_evolutionary_algorithm/evaluation/simulation/simulation_fitness_evaluation.py:193-196 | one id per configuration, in order |
| SimulationFitness.ToMeasurements | solai_evolutionary_algorithm/evaluation/simulation/simulation_fitness_evaluation.py:183-201 | one measurement record per result |
| SimulationFitness.MeasurementsOfTask | solai_evolutionary_algorithm/evaluation/simulation/simulation_fitness_evaluation.py:183-201 | a measurement record keeps its result's id and metrics and names the two simulated members' ids in order |
| SimulationFitness.AppendEach | solai_evolutionary_algorithm/evaluation/simulation/simulation_fitness_evaluation.py:231-233 | the append loop computes `AppendMeasurements`, which raises for a metric the character has no list for |
| SimulationFitness.AddPositionTo | solai_evolutionary_algorithm/evaluation/simulation/simulation_fitness_evaluation.py:218-233 | adding one position of a result computes `AddPosition`: singleton lists for a new character, appended values for a known one |
| SimulationFitness.AddPositionsFailure | solai_evolutionary_algorithm/evaluation/simulation/simulation_fitness_evaluation.py:217-233 | once a position fails, later positions do not change the failure |
| SimulationFitness.GroupAllFailure | solai_evolutionary_algorithm/evaluation/simulation/simulation_fitness_evaluation.py:237-241 | once a prefix of the results fails to group, the whole grouping fails with it |
| SimulationFitness.GroupAllSnoc | solai_evolutionary_algorithm/evaluation/simulation/simulation_fitness_evaluation.py:237-241 | `reduce` adds one more result with one more reducer step |
| SimulationFitness.GroupAllMeasuresByCharacter | solai_evolutionary_algorithm/evaluation/simulation/simulation_fitness_evaluation.py:203-243 | the imperative reduction computes the grouping `GroupAll` |
| SimulationFitness.AddResult | solai_evolutionary_algorithm/evaluation/simulation/simulation_fitness_evaluation.py:210-235 | one pass of the reducer adds the characters at positions 0 and 1 of a result in turn, stopping at the first failure, which is `GroupStep` |
| SimulationFitness.MeasurementsAtWellFormed | solai_evolutionary_algorithm/evaluation/simulation/simulation_fitness_evaluation.py:217-222 | for a well-formed result, position i yields one value per metric, the i-th of each list |
| SimulationFitness.AppendedAllStep | solai_evolutionary_algorithm/evaluation/simulation/simulation_fitness_evaluation.py:231-233 | appending the first measurement then the rest equals appending all at once |
| SimulationFitness.AppendFirst | solai_evolutionary_algorithm/evaluation/simulation/simulation_fitness_evaluation.py:231-233 | the append loop's first step keeps its invariant: unique keys, and every measured metric has a list |
| SimulationFitness.AppendMeasurementsSpec | solai_evolutionary_algorithm/evaluation/simulation/simulation_fitness_evaluation.py:231-233 | when every measured metric has a list, appending succeeds and adds each value to its own metric's list |
| SimulationFitness.ColumnAbsent | solai_evolutionary_algorithm/evaluation/simulation/simulation_fitness_evaluation.py:223-228 | a character that never appears has no values |
| SimulationFitness.ColumnSnoc | solai_evolutionary_algorithm/evaluation/simulation/simulation_fitness_evaluation.py:229-233 | a new appearance of c adds its value at the end of c's list and changes no other list |
| SimulationFitness.KeysUnique | solai_evolutionary_algorithm/evaluation/simulation/simulation_fitness_evaluation.py:219-222 | a dictionary whose keys are distinct metrics has unique keys |
| SimulationFitness.AddNewCharacterSpec | solai_evolutionary_algorithm/evaluation/simulation/simulation_fitness_evaluation.py:223-228 | a character's first appearance creates singleton lists and keeps the grouping faithful to all appearances |
| SimulationFitness.AddKnownCharacterSpec | solai_evolutionary_algorithm/evaluation/simulation/simulation_fitness_evaluation.py:229-233 | a later appearance appends and keeps the grouping faithful |
| SimulationFitness.AddPositionSpec | solai_evolutionary_algorithm/evaluation/simulation/simulation_fitness_evaluation.py:217-233 | adding either position of a well-formed result succeeds and keeps the grouping faithful |
| SimulationFitness.GroupStepSpec | solai_evolutionary_algorithm/evaluation/simulation/simulation_fitness_evaluation.py:210-235 | one reducer step adds position 0, then position 1, and keeps the grouping faithful |
| SimulationFitness.GroupAllSpec | solai_evolutionary_algorithm/evaluation/simulation/simulation_fitness_evaluation.py:203-243 | for well-formed results over distinct metrics, grouping succeeds, holds exactly the characters that appear, and holds for each metric the character's values in result order |
| SimulationFitness.ColumnLength | solai_evolutionary_algorithm/evaluation/simulation/simulation_fitness_evaluation.py:210-243 | each list of a character has one value per appearance of that character |
| SimulationFitness.MetricScore | solai_evolutionary_algorithm/evaluation/simulation/simulation_fitness_evaluation.py:173-181 | scoring raises exactly for a metric without a desired value (ValueError) or with desired value 0 (division by zero) |
| SimulationFitness.MetricScoreRange | solai_evolutionary_algorithm/evaluation/simulation/simulation_fitness_evaluation.py:177-181 | for a positive desired value the score lies in [0, 1] and is 1 exactly when the guarded average equals it |
| SimulationFitness.MetricScoreCloser | solai_evolutionary_algorithm/evaluation/simulation/simulation_fitness_evaluation.py:181 | an average closer to the desired value never scores lower |
| SimulationFitness.MetricScoreFar | solai_evolutionary_algorithm/evaluation/simulation/simulation_fitness_evaluation.py:181 | an average at least the desired value away from it scores 0 |
| SimulationFitness.MeanOf | solai_evolutionary_algorithm/evaluation/simulation/simulation_fitness_evaluation.py:153-159 | a metric's average exists exactly for a non-empty list, and times the length it is the sum |
| SimulationFitness.FitnessOf | solai_evolutionary_algorithm/evaluation/simulation/simulation_fitness_evaluation.py:135-136 | a character's fitness exists exactly when it has metric scores |
| SimulationFitness.AverageOfSpec | solai_evolutionary_algorithm/evaluation/simulation/simulation_fitness_evaluation.py:153-159 | averaging succeeds exactly when every list is non-empty, and gives each metric the mean of its list, in order |
| SimulationFitness.Averages | solai_evolutionary_algorithm/evaluation/simulation/simulation_fitness_evaluation.py:153-159 | the averages keep the metrics and their order |
| SimulationFitness.AveragesOf | solai_evolutionary_algorithm/evaluation/simulation/simulation_fitness_evaluation.py:153-159 | averaging non-empty lists succeeds with their means |
| SimulationFitness.ScoresOfSpec | solai_evolutionary_algorithm/evaluation/simulation/simulation_fitness_evaluation.py:162-169 | scoring succeeds exactly when every metric has a nonzero desired value, and gives each metric its score, in order |
| SimulationFitness.ScoresAfterAverage | solai_evolutionary_algorithm/evaluation/simulation/simulation_fitness_evaluation.py:148-171 | averaging then scoring non-empty lists gives each metric the score of its mean |
| SimulationFitness.FitnessFromScores | solai_evolutionary_algorithm/evaluation/simulation/simulation_fitness_evaluation.py:135-143 | a character's fitness is the mean, over its metrics, of the score of each metric's mean |
| SimulationFitness.EvaluateScorable | solai_evolutionary_algorithm/evaluation/simulation/simulation_fitness_evaluation.py:126-143 | when every character can be scored, evaluation keeps exactly the measured characters, in order, each with that fitness |
| SimulationFitness.EvaluateUnscorable | solai_evolutionary_algorithm/evaluation/simulation/simulation_fitness_evaluation.py:126-181 | one character that cannot be scored makes the whole evaluation raise |
| SimulationFitness.EvaluateFitnessAllCharactersSucceeds | solai_evolutionary_algorithm/evaluation/simulation/simulation_fitness_evaluation.py:126-143 | evaluation succeeds exactly when every character can be scored |
| SimulationFitness.CharacterFitnessRange | solai_evolutionary_algorithm/evaluation/simulation/simulation_fitness_evaluation.py:135-143 | with positive desired values a fitness lies in [0, 1] |
| SimulationFitness.FitnessOutput | solai_evolutionary_algorithm/evaluation/simulation/simulation_fitness_evaluation.py:84-90 | the output exists exactly when every member has a fitness; it then keeps the population in order and gives each member a one-element fitness list from the per-id fitness |
| SimulationFitness.OutputEntry | solai_evolutionary_algorithm/evaluation/simulation/simulation_fitness_evaluation.py:84-90 | member i gets `[fitness of its id]` |
| SimulationFitness.AppearancesShape | solai_evolutionary_algorithm/evaluation/simulation/simulation_fitness_evaluation.py:217-218 | each result gives two appearances, position 0 then position 1, of the characters it names |
| SimulationFitness.ColumnsOfParticipant | solai_evolutionary_algorithm/evaluation/simulation/simulation_fitness_evaluation.py:210-233 | a character that appears has a non-empty list for every metric |
| SimulationFitness.GroupedColumns | solai_evolutionary_algorithm/evaluation/simulation/simulation_fitness_evaluation.py:203-243 | the grouping has unique keys, exactly the appearing characters, and for each metric the character's values |
| SimulationFitness.GroupedFitness | solai_evolutionary_algorithm/evaluation/simulation/simulation_fitness_evaluation.py:126-243 | every grouped character can be scored and gets the fitness computed directly from its appearances |
| SimulationFitness.LookupExpected | solai_evolutionary_algorithm/evaluation/simulation/simulation_fitness_evaluation.py:84-90 | looking a measured character up in the fitness dictionary gives its expected fitness |
| SimulationFitness.EvaluateResultsSpec | solai_evolutionary_algorithm/evaluation/simulation/simulation_fitness_evaluation.py:63-98 | end to end, well-formed results in which every member appears give each member, in order, the mean over the metrics of the score of the mean of its measurements |
| SimulationFitness.MemberExpected | solai_evolutionary_algorithm/evaluation/simulation/simulation_fitness_evaluation.py:63-98 | a character that appears in well-formed results is grouped, scored, and found with its expected fitness |
| SimulationFitness.EveryMemberMeasured | solai_evolutionary_algorithm/evaluation/simulation/simulation_fitness_evaluation.py:63-90 | with two members or more and a queue that answers every task, every member appears in some result |
| SimulationFitness.AppearsIn | solai_evolutionary_algorithm/evaluation/simulation/simulation_fitness_evaluation.py:203-243 | the character at position 0 or 1 of a well-formed result is among the characters the grouping collects |
| SimulationFitness.SimulationFitnessEvaluation.constructor | solai_evolutionary_algorithm/evaluation/simulation/simulation_fitness_evaluation.py:35-52 | the evaluator keeps its metrics and desired values and starts with no stored results |
| SimulationFitness.SimulationFitnessEvaluation.EvaluateOnePopulation | solai_evolutionary_algorithm/evaluation/simulation/simulation_fitness_evaluation.py:63-98 | stores the results of all pair simulations, then the grouped measurements if grouping succeeds, and returns the evaluation of those results |
| ConstrainedNovelty.SimulationTasksShape | solai_evolutionary_algorithm/evaluation/simulation/constrained_novelty_evaluation.py:75-92 | count·\|opponents\|·\|population\| tasks, each with the metrics and a member first, against an opponent |
| ConstrainedNovelty.SimulationTaskAt | solai_evolutionary_algorithm/evaluation/simulation/constrained_novelty_evaluation.py:77-92 | in round b, member x against opponent o is task b·\|opponents\|·\|population\| + o·\|population\| + x |
| ConstrainedNovelty.IsFeasibleMetricResult | solai_evolutionary_algorithm/evaluation/simulation/constrained_novelty_evaluation.py:113-114 | a metric is feasible exactly when lo <= mean <= hi, both bounds inclusive; a metric without a range raises |
| ConstrainedNovelty.FeasibleCount | solai_evolutionary_algorithm/evaluation/simulation/constrained_novelty_evaluation.py:109-110 | the count succeeds exactly when every metric has a range; it is at most the number of metrics, all of them exactly when all are in range, zero exactly when none is |
| ConstrainedNovelty.ShareAtLeast | solai_evolutionary_algorithm/evaluation/simulation/constrained_novelty_evaluation.py:111 | the share test holds exactly when count >= threshold·n, so hitting the threshold counts |
| ConstrainedNovelty.IsFeasibleSucceeds | solai_evolutionary_algorithm/evaluation/simulation/constrained_novelty_evaluation.py:106-111 | the feasibility check succeeds exactly when the character has metrics, each with measurements and a range |
| ConstrainedNovelty.IsFeasibleShare | solai_evolutionary_algorithm/evaluation/simulation/constrained_novelty_evaluation.py:106-111 | a character is feasible exactly when the share of metrics whose mean is in range reaches the threshold |
| ConstrainedNovelty.ShareReachesOne | solai_evolutionary_algorithm/evaluation/simulation/constrained_novelty_evaluation.py:111 | at threshold 1.0 the share test holds exactly when every metric counts |
| ConstrainedNovelty.DefaultThresholdFeasible | solai_evolutionary_algorithm/evaluation/simulation/constrained_novelty_evaluation.py:31-111 | with the default threshold a character is feasible exactly when every metric's mean is in range |
| ConstrainedNovelty.FeasibilityOfPopulation | solai_evolutionary_algorithm/evaluation/simulation/constrained_novelty_evaluation.py:101-104 | the feasibility map has exactly the measured characters, in order |
| ConstrainedNovelty.FeasibleOutput | solai_evolutionary_algorithm/evaluation/simulation/constrained_novelty_evaluation.py:65-71 | the output exists exactly when every member is in the map; it keeps the population in order, each member with its feasibility flag and no fitness |
| ConstrainedNovelty.GroupedFeasible | solai_evolutionary_algorithm/evaluation/simulation/constrained_novelty_evaluation.py:101-111 | a grouped character's feasibility is that computed directly from its appearances |
| ConstrainedNovelty.FeasibleResultsSpec | solai_evolutionary_algorithm/evaluation/simulation/constrained_novelty_evaluation.py:52-73 | end to end, well-formed results in which every member appears give each member, in order, its expected feasibility |
| ConstrainedNovelty.MemberFeasible | solai_evolutionary_algorithm/evaluation/simulation/constrained_novelty_evaluation.py:52-73 | a character that appears in well-formed results is grouped and found with its expected feasibility |
| ConstrainedNovelty.EveryMemberSimulated | solai_evolutionary_algorithm/evaluation/simulation/constrained_novelty_evaluation.py:75-92 | with an opponent, a round, and a queue that answers every task, every member appears in some result, in the first position |
| NoveltySimulationFitness.ArchiveTasksShape | solai_evolutionary_algorithm/evaluation/simulation/novelty_simulation_fitness_evaluation.py:84-100 | count·\|archive\|·\|population\| tasks, each with the metrics and a member first, against an archive individual, so two members are never paired |
| NoveltySimulationFitness.ArchiveTaskAt | solai_evolutionary_algorithm/evaluation/simulation/novelty_simulation_fitness_evaluation.py:85-100 | in round b, member x against archive individual o is task b·\|archive\|·\|population\| + o·\|population\| + x |
| NoveltySimulationFitness.Bootstrap | solai_evolutionary_algorithm/evaluation/simulation/novelty_simulation_fitness_evaluation.py:43-52 | with an empty archive every member, in order, gets fitness `[0]` |
| NoveltySimulationFitness.EvaluateAgainstArchiveShape | solai_evolutionary_algorithm/evaluation/simulation/novelty_simulation_fitness_evaluation.py:41-82 | an empty archive always succeeds; in both branches a success keeps the population in order with one-element fitness lists |
| NoveltySimulationFitness.EveryMemberSimulated | solai_evolutionary_algorithm/evaluation/simulation/novelty_simulation_fitness_evaluation.py:84-100 | with a non-empty archive, a round and a queue that answers every task, every member appears in some result |
| NoveltySimulationFitness.EvaluateAgainstArchiveSpec | solai_evolutionary_algorithm/evaluation/simulation/novelty_simulation_fitness_evaluation.py:54-82 | with a non-empty archive, each member gets the desired-value fitness of all its measurements |
| NoveltySimulationFitness.NoveltySimulationFitnessEvaluation.constructor | solai_evolutionary_algorithm/evaluation/simulation/novelty_simulation_fitness_evaluation.py:18-36 | the evaluator keeps its configuration and starts with no stored results |
| NoveltySimulationFitness.NoveltySimulationFitnessEvaluation.EvaluateOnePopulation | solai_evolutionary_algorithm/evaluation/simulation/novelty_simulation_fitness_evaluation.py:41-82 | an empty archive changes nothing and bootstraps; otherwise the results and the grouped measurements are stored and the archive evaluation returned |
| Evolver.FixedGenerationsEndCriteria.constructor | solai_evolutionary_algorithm/evolution/evolver.py:8-10 | the counter starts at 0 |
| Evolver.FixedGenerationsEndCriteria.Call | solai_evolutionary_algorithm/evolution/evolver.py:12-14 | each call increments the counter by one and answers whether the generations are at least the new counter |
| Evolver.CallTimes | solai_evolutionary_algorithm/evolution/evolver.py:12-14 | k calls on a fresh criterion leave the counter at k, and the i-th answer is whether i <= generations |
| Evolver.FirstStop | solai_evolutionary_algorithm/evolution/evolver.py:35-39 | the call at which the loop stops is within the fuel and answers true |
| Evolver.FirstStopAt | solai_evolutionary_algorithm/evolution/evolver.py:35-39 | the first true answer within the fuel is where the loop stops |
| Evolver.FirstStopNone | solai_evolutionary_algorithm/evolution/evolver.py:35-39 | with no true answer within the fuel the loop does not stop |
| Evolver.EvaluateAndEvolve | solai_evolutionary_algorithm/evolution/evolver.py:36-37 | one iteration's two operator calls take the population and state of iteration i to those of iteration i + 1, the evolver continuing from the state the evaluator left |
| Evolver.EvaluatedAt | solai_evolutionary_algorithm/evolution/evolver.py:33-43 | the i-th population handed to the evaluator is the initial population evolved i times, with the operators' state threaded through every earlier call |
| Evolver.Evolve | solai_evolutionary_algorithm/evolution/evolver.py:30-43 | the evaluator and the evolver carry a shared state from call to call; the populations handed to the evaluator are `Evaluated` (see `EvaluatedAt`), the criterion is asked only after evolving, the loop stops at its first true answer with the generation count one below, and otherwise runs out of fuel; the operators' final state is the one their last calls left |
| Evolver.FixedGenerationsStopAtOnce | solai_evolutionary_algorithm/evolution/evolver.py:12-14 | as written, a criterion for g >= 1 stops the loop after the first iteration and one for g <= 0 never stops it |
| Evolver.IntendedGenerationsStop | solai_evolutionary_algorithm/evolution/evolver.py:12-14 | with the comparison reversed the loop runs exactly max(g, 1) iterations |
| Evolution.RandomSource.constructor | solai_evolutionary_algorithm/evolution/evolution.py:150 | a fresh generator has taken no draws and issued no uuids |
| Evolution.RandomSource.Random | solai_evolutionary_algorithm/evolution/evolution.py:199 | `random()` returns the next draw and advances the draw counter |
| Evolution.RandomSource.Uniform | solai_evolutionary_algorithm/evolution/evolution.py:150 | `uniform(a, b)` is a + (b - a)·draw and takes one draw |
| Evolution.RandomSource.RandInt | solai_evolutionary_algorithm/evolution/evolution.py:126 | `randint(a, b)` takes one draw and lies in [a, b]; an empty range raises without drawing |
| Evolution.RandomSource.Uuid4 | solai_evolutionary_algorithm/evolution/evolution.py:130 | each uuid is the next one of the supply |
| Evolution.Genome.constructor | solai_evolutionary_algorithm/evolution/evolution.py:146-175 | a mutable genome holds the given value |
| Evolution.ScaledBounds | solai_evolutionary_algorithm/evolution/evolution.py:191-196 | a factor above 1 never exceeds the maximum, and otherwise the value never falls below the minimum; the value is scaled or clamped |
| Evolution.ScaledInRange | solai_evolutionary_algorithm/evolution/evolution.py:191-196 | a non-negative value in range stays in range |
| Evolution.ScaledIntBounds | solai_evolutionary_algorithm/evolution/evolution.py:151-154 | the truncated one-sided clamp never exceeds a non-negative maximum when growing and never falls below the floor of a non-negative minimum when shrinking |
| Evolution.ScaledIntInRange | solai_evolutionary_algorithm/evolution/evolution.py:151-154 | with integer bounds, a value in range stays in range after truncation |
| Evolution.MutatedAttribute | solai_evolutionary_algorithm/evolution/evolution.py:182-204 | text is untouched and takes no draw; a number is scaled within its named range with one draw, and raises without a range; a flag flips exactly when its draw exceeds 0.8 |
| Evolution.MutatedAttributesSpec | solai_evolutionary_algorithm/evolution/evolution.py:182-204 | an ability's attributes mutate exactly when every number has a range; names and kinds of value are kept, text is untouched, one draw per number or flag |
| Evolution.DrawingAppend | solai_evolutionary_algorithm/evolution/evolution.py:182-204 | the attributes that draw from a concatenation are those of each part, in order |
| Evolution.MutatedAbility | solai_evolutionary_algorithm/evolution/evolution.py:177-181 | an ability keeps its kind, and melee abilities use the melee ranges |
| Evolution.MutatedAbilitiesSpec | solai_evolutionary_algorithm/evolution/evolution.py:172-175 | the abilities mutate exactly when each is mutable, keeping their number and kinds and taking no uuid |
| Evolution.MutatedSpec | solai_evolutionary_algorithm/evolution/evolution.py:134-175 | mutation keeps the id and abilities' number and kinds, succeeds exactly when every ability is mutable, and keeps radius and move velocity in integer ranges that contain them |
| Evolution.FactorRange | solai_evolutionary_algorithm/evolution/evolution.py:150 | `uniform(0.5, 1.5)` lies in [0.5, 1.5) |
| Evolution.CrossoverSpec | solai_evolutionary_algorithm/evolution/evolution.py:124-132 | the child equals the first parent except for a fresh id and one ability taken from the second parent at the same index; equal non-zero ability counts always cross |
| Evolution.LastWithIdSpec | solai_evolutionary_algorithm/evolution/evolution.py:211-216 | the lookup finds nothing exactly when no member carries the id, and otherwise a member carrying it, after which no later member does |
| Evolution.LastWithIdIsLast | solai_evolutionary_algorithm/evolution/evolution.py:211-216 | the lookup returns the last of the members carrying the id |
| Evolution.StrLeTotal | solai_evolutionary_algorithm/evolution/evolution.py:62-63 | string comparison is total |
| Evolution.StrLeTransitive | solai_evolutionary_algorithm/evolution/evolution.py:62-63 | string comparison is transitive |
| Evolution.ByFitnessThenIdTotal | solai_evolutionary_algorithm/evolution/evolution.py:62-63 | the (fitness, id) order is a total preorder |
| Evolution.RankedSpec | solai_evolutionary_algorithm/evolution/evolution.py:62-63 | the ranking is a permutation of the (fitness, id) entries, sorted ascending |
| Evolution.SurvivorsSpec | solai_evolutionary_algorithm/evolution/evolution.py:68-73 | survival succeeds exactly when there are s ranked entries and each of the s best ids is carried; survivors are those members, best first |
| Evolution.SurvivorsFromSpec | solai_evolutionary_algorithm/evolution/evolution.py:69-73 | the lookup succeeds exactly when each of the i-th to (s-1)-th best ids is carried by some member, and then gives, in that order, the last member carrying each; otherwise it fails with a missing-character error |
| Evolution.SurvivorsAreFittest | solai_evolutionary_algorithm/evolution/evolution.py:58-73 | survivors carry the best ids, best first, and no entry left out is ranked above a survivor |
| Evolution.CrossAllSpec | solai_evolutionary_algorithm/evolution/evolution.py:75-78 | the t-th pair is crossed with the t-th draw and uuid, and all crossovers must succeed |
| Evolution.CrossAllChild | solai_evolutionary_algorithm/evolution/evolution.py:75-78 | there is one child per pair, and the t-th is the successful crossover of the t-th pair with the t-th draw and uuid |
| Evolution.CrossAllLength | solai_evolutionary_algorithm/evolution/evolution.py:75-78 | one child per pair |
| Evolution.FillUpShape | solai_evolutionary_algorithm/evolution/evolution.py:84-89 | filling up gives exactly the missing number of clones, and succeeds when a child exists and all children are mutable |
| Evolution.FillUpClones | solai_evolutionary_algorithm/evolution/evolution.py:84-89 | each clone is a mutated copy of some child, finished by the ability change |
| Evolution.NextGenerationShape | solai_evolutionary_algorithm/evolution/evolution.py:68-89 | a generation starts with the s survivors, has s(s-1)/2 children, and has max(n, s + s(s-1)/2) members, which is `GenerationSize(n)` |
| Evolution.NextGenerationChild | solai_evolutionary_algorithm/evolution/evolution.py:75-81 | after the survivors, member t is the child of the t-th pair of survivors |
| Evolution.NextGenerationSucceeds | solai_evolutionary_algorithm/evolution/evolution.py:68-89 | survivors with the same non-zero number of mutable abilities always give a next generation |
| Evolution.Generations | solai_evolutionary_algorithm/evolution/evolution.py:58-96 | after g >= 1 successful generations the population has max(n, s + s(s-1)/2) members with s = max(floor(n/5), 2), whatever size it started with |
| Evolution.PopulationGrows | solai_evolutionary_algorithm/evolution/evolution.py:58-84 | a generation keeps the population size n exactly when 3 <= n < 50; for n = 2 and every n >= 50 it grows |
| Evolution.ReportSpec | solai_evolutionary_algorithm/evolution/evolution.py:92-106 | the report of a ranked evaluation has non-decreasing fitness, holds each (fitness, id) entry of the evaluation once, and gives each entry no genome exactly when no member carries its id, and otherwise the last member carrying it |
| Evolution.Evolution.constructor | solai_evolutionary_algorithm/evolution/evolution.py:16-41 | the algorithm keeps the configured ranges |
| Evolution.Evolution.MutateRadius | solai_evolutionary_algorithm/evolution/evolution.py:146-156 | the radius becomes the truncated one-sided clamp of factor·radius, with one draw; nothing else changes |
| Evolution.Evolution.MutateMoveVelocity | solai_evolutionary_algorithm/evolution/evolution.py:158-170 | the same for move velocity |
| Evolution.Evolution.MutateAbility | solai_evolutionary_algorithm/evolution/evolution.py:177-204 | the attribute loop computes `MutatedAbility`, with the same draws |
| Evolution.Evolution.MutateAbilities | solai_evolutionary_algorithm/evolution/evolution.py:172-175 | the ability loop computes `MutatedAbilities` in place |
| Evolution.Evolution.CrossoverScheme1 | solai_evolutionary_algorithm/evolution/evolution.py:124-132 | the copy-and-swap computes `Crossover`, leaving both parents unchanged |
| Evolution.Evolution.MutationScheme1 | solai_evolutionary_algorithm/evolution/evolution.py:134-138 | the genome becomes the ability change of `Mutated` of the old genome |
| Evolution.Evolution.GetCharacterInPopulationById | solai_evolutionary_algorithm/evolution/evolution.py:211-216 | the overwrite loop returns the last member with the id, or none |
| Evolution.Evolution.SurvivingCharacters | solai_evolutionary_algorithm/evolution/evolution.py:68-73 | the loop over the best ids computes `Survivors` |
| Evolution.Evolution.MakeChildren | solai_evolutionary_algorithm/evolution/evolution.py:75-78 | the pair loop computes `CrossAll` over the pairs of survivors |
| Evolution.Evolution.FillUpWithClones | solai_evolutionary_algorithm/evolution/evolution.py:82-89 | the clone loop computes `FillUp` for the remaining count, none when it is negative |
| Evolution.Evolution.AddClone | solai_evolutionary_algorithm/evolution/evolution.py:85-88 | one pass of the clone loop picks a child, copies and mutates it, and advances the draws exactly as `CloneOf` |
| Evolution.Evolution.NextGeneration | solai_evolutionary_algorithm/evolution/evolution.py:68-89 | one iteration computes `NextGenerationOf` |
| Evolution.Evolution.RankedCharacters | solai_evolutionary_algorithm/evolution/evolution.py:98-106 | the report loop computes `Report` |
| Evolution.Evolution.Evolve | solai_evolutionary_algorithm/evolution/evolution.py:50-106 | `evolve` runs the three generations of `Generations` from the initial population and returns the final ranking with each entry's genome |
| EvolutionData.FilterFeasibleSpec | solai_evolutionary_algorithm/evolution_data/evolution_data.py:51-52 | filtering succeeds exactly when every member is scored, and keeps exactly the members scoring 1 |
| EvolutionData.FilterFeasibleAppend | solai_evolutionary_algorithm/evolution_data/evolution_data.py:51-52 | filtering a concatenation concatenates the filtered parts, so order is kept |
| EvolutionData.FilterFeasibleIdempotent | solai_evolutionary_algorithm/evolution_data/evolution_data.py:51-52 | filtering twice is filtering once |
| EvolutionData.PairDistances | solai_evolutionary_algorithm/evolution_data/evolution_data.py:91-94 | one distance per pair, between its two individuals |
| EvolutionData.DistancesFrom | solai_evolutionary_algorithm/evolution_data/evolution_data.py:91-94 | one distance from x to each other member |
| EvolutionData.DiversityOfFewerThanTwo | solai_evolutionary_algorithm/evolution_data/evolution_data.py:90-94 | fewer than two members have diversity 0 |
| EvolutionData.DiversityCons | solai_evolutionary_algorithm/evolution_data/evolution_data.py:90-94 | diversity is the first member's distances to the rest plus the rest's diversity |
| EvolutionData.DiversityBounds | solai_evolutionary_algorithm/evolution_data/evolution_data.py:90-94 | with distances in [0, hi], diversity lies in [0, n(n-1)/2·hi] |
| EvolutionData.FirstMax | solai_evolutionary_algorithm/evolution_data/evolution_data.py:87 | `max` returns a greatest score, the first one on ties |
| EvolutionData.Diversities | solai_evolutionary_algorithm/evolution_data/evolution_data.py:82-85 | one diversity per sub-population |
| EvolutionData.LargestPermutationDiversitySpec | solai_evolutionary_algorithm/evolution_data/evolution_data.py:80-87 | the result exists exactly for six members or more; it is a six-member combination with its diversity, none is more diverse, and every earlier one is strictly less |
| EvolutionData.AvgDiversitySpec | solai_evolutionary_algorithm/evolution_data/evolution_data.py:61-62 | the average exists exactly when there is a population and lies between the least and greatest diversity |
| EvolutionData.StatsOfSpec | solai_evolutionary_algorithm/evolution_data/evolution_data.py:97-106 | statistics exist exactly when every run has a last generation whose members are scored; entry i is the feasible part of run i's last generation |
| EvolutionData.GetStatsFromEvolutionInstances | solai_evolutionary_algorithm/evolution_data/evolution_data.py:97-106 | the collecting loop computes `StatsOf` |

## Left out

- Where the model follows the code against the design:
  - The novelty simulation evaluator scores with the desired-value fitness, not by novelty.
  - Archive novelty divides by k even when fewer than k distances exist.
- The novelty archive is a class-level list shared by every instance of the evolver. It is modelled as an instance-owned field.
- When more survivors are carried than the population size allows, the population grows. This happens when s + s(s-1)/2 exceeds n, which is the case for n = 2 and for every n >= 50 (`PopulationGrows`): `range` of a negative count adds no clones, and the next generation keeps the larger size. For n < 2, as long as the evaluation ranks no more members than the population has, the survivor loop indexes past the ranking and raises; the model reports this as `TooFewRanked`.
- Python name-resolution failures are not modelled; the model gives the logic each file states.
  - `Representation` defines neither `clone_character` nor `change_random_ability_of_character`, so the clone loop and `mutation_scheme1` raise `AttributeError` as written.
  - The subclasses call the parent's private methods under their unmangled names.
  - `NoveltySimulationFitnessEvaluation` passes keyword arguments the parent constructor does not take.
  - `Evolution.__init__` reads keyword arguments its callers do not pass.
- Evolution.Evolution.SurvivingCharacters: an id that no member carries fails here with a missing-character error. The source appends `None` and fails later, in crossover, with a `TypeError`.
- EvolutionData.FilterFeasibleSpec: states membership and size, not order. Order is stated by `FilterFeasibleAppend`.
- EvolutionData.AvgDiversitySpec: states bounds only. That the average ignores the order of the dictionary is not proved.
- Evolver.Evolve: the source loop has no bound, so the model runs at most `fuel` iterations and reports whether the criterion stopped it.
- Parts of the system outside the model:
  - The simulation queue (Redis) and its blocking wait. The queue is a function from the pushed tasks to the results.
  - The MongoDB access and the module-level query script of the evolution-data analysis.
  - Plotting and all `print` output, including `average_largest_population_diversity`, which only prints.
  - The configuration files and the drivers.
- The genome distance `normalized_euclidean_distance` is not part of this model. It is a parameter, and nothing is assumed about it except where a lemma states non-negative distances as a hypothesis.
- The crossover, mutation and producer operators of the fitness-and-novelty evolver come from code that is not part of this model. They are function parameters, and so deterministic functions of their inputs. Operators that draw random numbers, which may give different children for equal inputs, are not modelled.
- `clone_character` is assumed to be a deep copy, as `crossover_scheme1` makes with `deepcopy`; a clone is then a value, as the model has it. No definition of it is part of the repository's code.
- `change_random_ability_of_character` has no definition in the repository's code either. It is a parameter `change`, assumed to be a function of the genome that takes no draw from the modelled stream.
- Evolution.Evolution.Evolve: `evaluate_one_generation` calls `Evaluation`, which is not part of this model. It is a function of the population, so state the evaluation may keep from one call to the next is not modelled.
- `mutation_scheme2`, `generate_init_population`, `evaluate_one_generation` and `push_population` are not modelled:
  - the first two are unused by `evolve`;
  - the evaluation is a parameter;
  - pushing the report is queue I/O.
- `get_novel_archive_values` and the `serialize` methods only read configuration.
- An evaluated individual without a `fitness` entry (a `KeyError`) and one whose `fitness` is `None` (a `ValueError`) both fail with `MissingFitness`: the model does not tell the two exceptions apart.
- Floating point: exact reals stand for Python floats, so rounding artefacts of `total * share`, of `mean` and of the score formula are not modelled.
- The flag flip compares the draw against 0.8, the exact value of `1 - 0.2`.

## Findings

| source | as written | input that shows it | evidently intended | confidence | as-written member | corrected member |
|---|---|---|---|---|---|---|
| solai_evolutionary_algorithm/evolution/evolver.py:12-14 | the criterion answers `generations >= curr_generation`, which is true from the first call for any g >= 1 and never true for g <= 0 | `FixedGenerationsEndCriteria(3)`: the first call answers true, so `evolve` stops after one iteration instead of three | answer true once the counter reaches the configured number of generations, so the loop runs g iterations | not executed | Evolver.FixedGenerationsStopAtOnce | Evolver.IntendedGenerationsStop |
