/** The population evolver that ranks a generation by fitness, keeps an archive
    of the most novel individuals seen so far, and builds the next generation
    from crossover children, mutated copies, fresh individuals and elites. */
module FitnessNovelty {
  import opened Wrappers
  import opened PySemantics
  import opened Sorting
  import opened Itertools
  import opened EvolutionTypes

  /** Takes a sub-population (a pair of parents) and returns its children. */
  type Crossover = seq<Individual> -> seq<Individual>

  type Mutation = Individual -> Individual

  /** The producer of new individuals. It is called with no argument and may
      return a different individual on each call, so the model passes it the
      number of calls made before this one. */
  type IndividualProducer = nat -> Individual

  /** The evolver's configuration. The three attribute-range dictionaries serve
      only the distance, which is a separate parameter here. */
  datatype Config = Config(
    crossoverShare: real,
    mutateOnlyShare: real,
    newIndividualsShare: real,
    elitismShare: real,
    novelArchiveSize: int,
    nearestNeighbourNumber: int,
    crossover: Option<Crossover>,
    mutations: Option<seq<Mutation>>,
    newIndividualsProducer: Option<IndividualProducer>)

  /** The `ValueError`s raised by the constructor. */
  datatype ConfigError = NoCrossover | NoNewIndividualsProducer

  /** The exceptions a generation step can raise. */
  datatype EvolverError =
    | MissingFitness   // `fitness` is absent (`KeyError`) or `None` (`ValueError`); the model does not tell them apart
    | InvalidFitness   // its fitness is not a non-empty list of numbers
    | NoveltyNotSet    // a one-member batch is sorted by a novelty it never got
    | ZeroNeighbours   // archive novelty divides by `nearest_neighbour_number` == 0

  /** The first constructor check that fails, if any. */
  function ConfigProblem(c: Config): Option<ConfigError>
  {
    if c.crossoverShare != 0.0 && c.crossover.None? then Some(NoCrossover)
    else if c.newIndividualsShare != 0.0 && c.newIndividualsProducer.None? then Some(NoNewIndividualsProducer)
    else None
  }

  // ---------------------------------------------------------------------------
  // Ranking by fitness

  /** The sort key: the sum of the fitness list, which must be present and non-empty.
      `None` stands both for a missing `fitness` entry and for an explicit `None`. */
  function FitnessKey(e: EvaluatedIndividual): Result<real, EvolverError>
  {
    match e.fitness
    case None => Failure(MissingFitness)
    case Some(f) => if f == [] then Failure(InvalidFitness) else Success(Sum(f))
  }

  /** The key of an individual whose key exists. */
  function FitnessSum(e: EvaluatedIndividual): real
  {
    if FitnessKey(e).Success? then FitnessKey(e).value else 0.0
  }

  /** The error raised by the first individual, in population order, whose key cannot be computed. */
  function FirstKeyError(p: seq<EvaluatedIndividual>): (r: Option<EvolverError>)
    ensures r.None? <==> forall i :: 0 <= i < |p| ==> FitnessKey(p[i]).Success?
    ensures r.Some? ==> exists i :: 0 <= i < |p| && FitnessKey(p[i]) == Failure(r.value)
                                     && forall j :: 0 <= j < i ==> FitnessKey(p[j]).Success?
  {
    if p == [] then None
    else if FitnessKey(p[0]).Failure? then Some(FitnessKey(p[0]).error)
    else
      var r := FirstKeyError(p[1..]);
      assert forall i :: 0 < i < |p| ==> p[i] == p[1..][i - 1];
      if r.Some? then
        assert exists i :: 1 <= i < |p| && FitnessKey(p[i]) == Failure(r.value)
                           && forall j :: 0 <= j < i ==> FitnessKey(p[j]).Success?;
        r
      else r
  }

  /** The population sorted by fitness sum, highest first, equal sums keeping
      their order; or the error of the first individual without a usable fitness. */
  function Rank(p: seq<EvaluatedIndividual>): (r: Result<seq<EvaluatedIndividual>, EvolverError>)
    ensures r.Success? <==> forall i :: 0 <= i < |p| ==> FitnessKey(p[i]).Success?
    ensures r.Failure? ==> Some(r.error) == FirstKeyError(p)
    ensures r.Success? ==> multiset(r.value) == multiset(p)
    ensures r.Success? ==> forall i, j :: 0 <= i < j < |r.value| ==> FitnessSum(r.value[i]) >= FitnessSum(r.value[j])
    ensures r.Success? ==> forall v :: WithKey(r.value, FitnessSum, v) == WithKey(p, FitnessSum, v)
  {
    var e := FirstKeyError(p);
    if e.Some? then Failure(e.value)
    else
      SortByKeyDesc(p, FitnessSum);
      forall v ensures WithKey(SortBy(p, ByKeyDesc(FitnessSum)), FitnessSum, v) == WithKey(p, FitnessSum, v) {
        SortByKeyDescStable(p, FitnessSum, v);
      }
      Success(SortBy(p, ByKeyDesc(FitnessSum)))
  }

  // ---------------------------------------------------------------------------
  // Building the next generation

  /** `round(total * share)`. */
  function Share2Amount(total: nat, share: real): int
  {
    RoundHalfEven(total as real * share)
  }

  /** A share in [0, 1] of a population gives a count between 0 and the population size. */
  lemma Share2AmountBounds(total: nat, share: real)
    requires 0.0 <= share <= 1.0
    ensures 0 <= Share2Amount(total, share) <= total
  {
    var x := total as real * share;
    assert 0.0 <= x <= total as real;
    var r := RoundHalfEven(x);
    assert -0.5 <= r as real - x <= 0.5;
  }

  /** A zero share gives a zero count, so a missing crossover or producer is never called. */
  lemma Share2AmountZero(total: nat)
    ensures Share2Amount(total, 0.0) == 0
  {
    assert total as real * 0.0 == 0.0;
  }

  /** The raw crossover count, made even by rounding an odd count down. */
  function EvenCrossoverCount(raw: int): (r: int)
    ensures r % 2 == 0 && r <= raw < r + 2
  {
    if raw % 2 != 0 then raw - 1 else raw
  }

  datatype Counts = Counts(crossover: int, mutateOnly: int, newIndividuals: int, elitism: int)

  function GenerationCounts(n: nat, c: Config): Counts
  {
    Counts(
      EvenCrossoverCount(Share2Amount(n, c.crossoverShare)),
      Share2Amount(n, c.mutateOnlyShare),
      Share2Amount(n, c.newIndividualsShare),
      Share2Amount(n, c.elitismShare))
  }

  /** A configuration that passes the constructor never needs a missing crossover or producer. */
  lemma ValidConfigCounts(n: nat, c: Config)
    requires ConfigProblem(c).None?
    ensures c.crossover.None? ==> GenerationCounts(n, c).crossover == 0
    ensures c.newIndividualsProducer.None? ==> GenerationCounts(n, c).newIndividuals == 0
  {
    Share2AmountZero(n);
  }

  /** The children of the consecutive parent pairs, concatenated; the crossover is not called when there are no parents. */
  function CrossoverChildren(crossover: Option<Crossover>, parents: seq<Individual>): seq<Individual>
    requires crossover.None? ==> parents == []
  {
    if parents == [] then []
    else
      var pairs := Chunks2(parents);
      Flatten(seq(|pairs|, i requires 0 <= i < |pairs| => crossover.value(pairs[i])))
  }

  /** `count` calls of the producer, the first being call number `start`. */
  function NewIndividuals(producer: Option<IndividualProducer>, start: nat, count: int): (r: seq<Individual>)
    requires producer.None? ==> count <= 0
  {
    seq(Max(count, 0), i requires 0 <= i < Max(count, 0) => producer.value(start + i))
  }

  /** `reduce(lambda x, m: m(x), mutations, individual)`: the mutations applied in list order. */
  function Mutate(mutations: seq<Mutation>, x: Individual): Individual
  {
    if mutations == [] then x else Mutate(mutations[1..], mutations[0](x))
  }

  /** Mutating with a concatenation of lists applies the first list, then the second. */
  lemma {:induction false} MutateAppend(ms1: seq<Mutation>, ms2: seq<Mutation>, x: Individual)
    ensures Mutate(ms1 + ms2, x) == Mutate(ms2, Mutate(ms1, x))
  {
    if ms1 != [] {
      assert (ms1 + ms2)[1..] == ms1[1..] + ms2;
      MutateAppend(ms1[1..], ms2, ms1[0](x));
    } else {
      assert ms1 + ms2 == ms2;
    }
  }

  /** The individuals to be mutated, mutated when mutations are configured. */
  function MutateAll(mutations: Option<seq<Mutation>>, batch: seq<Individual>): (r: seq<Individual>)
  {
    if mutations.None? then batch
    else seq(|batch|, i requires 0 <= i < |batch| => Mutate(mutations.value, batch[i]))
  }

  /** The individuals to be mutated: crossover children, then the best `mutateOnly`, then the new ones. */
  function ToBeMutated(c: Config, ordered: seq<Individual>, producerStart: nat): seq<Individual>
    requires ConfigProblem(c).None?
  {
    var counts := GenerationCounts(|ordered|, c);
    ValidConfigCounts(|ordered|, c);
    CrossoverChildren(c.crossover, Take(ordered, counts.crossover))
      + Take(ordered, counts.mutateOnly)
      + NewIndividuals(c.newIndividualsProducer, producerStart, counts.newIndividuals)
  }

  /** The next generation built from the ranked population: the mutated batch followed by the unmutated elites. */
  function NextGeneration(c: Config, ordered: seq<Individual>, producerStart: nat): seq<Individual>
    requires ConfigProblem(c).None?
  {
    MutateAll(c.mutations, ToBeMutated(c, ordered, producerStart))
      + Take(ordered, GenerationCounts(|ordered|, c).elitism)
  }

  lemma {:induction false} FlattenPairs(ss: seq<seq<Individual>>)
    requires forall i :: 0 <= i < |ss| ==> |ss[i]| == 2
    ensures |Flatten(ss)| == 2 * |ss|
  {
    if ss != [] {
      FlattenPairs(ss[1..]);
    }
  }

  /** With shares in [0, 1] and a crossover that turns two parents into two
      children, the next generation has exactly crossover + mutate-only + new +
      elitism members; the parents of the i-th pair are the (2i)-th and
      (2i+1)-th best; and the elites are the best individuals, unchanged. */
  lemma NextGenerationShape(c: Config, ordered: seq<Individual>, producerStart: nat)
    requires ConfigProblem(c).None?
    requires 0.0 <= c.crossoverShare <= 1.0 && 0.0 <= c.mutateOnlyShare <= 1.0
    requires 0.0 <= c.newIndividualsShare <= 1.0 && 0.0 <= c.elitismShare <= 1.0
    requires c.crossover.Some? ==> forall p :: |p| == 2 ==> |c.crossover.value(p)| == 2
    ensures var counts := GenerationCounts(|ordered|, c);
      var r := NextGeneration(c, ordered, producerStart);
      && 0 <= counts.crossover <= |ordered| && 0 <= counts.mutateOnly <= |ordered|
      && 0 <= counts.newIndividuals <= |ordered| && 0 <= counts.elitism <= |ordered|
      && |r| == counts.crossover + counts.mutateOnly + counts.newIndividuals + counts.elitism
      && r[|r| - counts.elitism..] == ordered[..counts.elitism]
      && |Chunks2(ordered[..counts.crossover])| == counts.crossover / 2
      && (forall i :: 0 <= i < counts.crossover / 2 ==>
            Chunks2(ordered[..counts.crossover])[i] == [ordered[2 * i], ordered[2 * i + 1]])
  {
    var n := |ordered|;
    var counts := GenerationCounts(n, c);
    Share2AmountBounds(n, c.crossoverShare);
    Share2AmountBounds(n, c.mutateOnlyShare);
    Share2AmountBounds(n, c.newIndividualsShare);
    Share2AmountBounds(n, c.elitismShare);
    ValidConfigCounts(n, c);
    var parents := Take(ordered, counts.crossover);
    assert parents == ordered[..counts.crossover];
    CrossoverChildrenCount(c.crossover, parents);
    ParentPairs(ordered, counts.crossover);
    var batch := ToBeMutated(c, ordered, producerStart);
    assert |MutateAll(c.mutations, batch)| == |batch|;
  }

  /** A crossover turning two parents into two children gives one child per parent. */
  lemma CrossoverChildrenCount(crossover: Option<Crossover>, parents: seq<Individual>)
    requires crossover.None? ==> parents == []
    requires |parents| % 2 == 0
    requires crossover.Some? ==> forall p :: |p| == 2 ==> |crossover.value(p)| == 2
    ensures |CrossoverChildren(crossover, parents)| == |parents|
  {
    if parents != [] {
      var pairs := Chunks2(parents);
      Chunks2Even(parents);
      FlattenPairs(seq(|pairs|, i requires 0 <= i < |pairs| => crossover.value(pairs[i])));
    }
  }

  /** The i-th pair of the best m (m even) is the (2i)-th and (2i+1)-th best. */
  lemma ParentPairs(ordered: seq<Individual>, m: int)
    requires 0 <= m <= |ordered| && m % 2 == 0
    ensures |Chunks2(ordered[..m])| == m / 2
    ensures forall i :: 0 <= i < m / 2 ==> Chunks2(ordered[..m])[i] == [ordered[2 * i], ordered[2 * i + 1]]
  {
    var parents := ordered[..m];
    Chunks2Even(parents);
    forall i | 0 <= i < m / 2 ensures Chunks2(parents)[i] == [ordered[2 * i], ordered[2 * i + 1]] {
      assert parents[2 * i..2 * i + 2] == [ordered[2 * i], ordered[2 * i + 1]];
    }
  }

  /** Four ranked individuals with shares 0.5 / 0 / 0.25 / 0.25 give two
      crossover children, one new individual and one elite: four again. */
  lemma FourMemberGeneration(c: Config, ordered: seq<Individual>, producerStart: nat)
    requires ConfigProblem(c).None? && |ordered| == 4
    requires c.crossoverShare == 0.5 && c.mutateOnlyShare == 0.0
    requires c.newIndividualsShare == 0.25 && c.elitismShare == 0.25
    requires forall p :: |p| == 2 ==> |c.crossover.value(p)| == 2
    ensures GenerationCounts(4, c) == Counts(2, 0, 1, 1)
    ensures |NextGeneration(c, ordered, producerStart)| == 4
    ensures NextGeneration(c, ordered, producerStart)[3] == ordered[0]
  {
    assert RoundHalfEven(4.0 * 0.5) == 2 by { assert (2.0).Floor == 2; }
    assert RoundHalfEven(4.0 * 0.25) == 1 by { assert (1.0).Floor == 1; }
    Share2AmountZero(4);
    NextGenerationShape(c, ordered, producerStart);
  }

  // ---------------------------------------------------------------------------
  // Novelty within a batch

  /** The distance shares member k receives from the pairs (a, k) with a < m,
      in the order the pairs are visited. */
  function LeftShare(batch: seq<EvaluatedIndividual>, dist: Distance, k: nat, m: nat): real
    requires k < |batch| && m <= |batch|
  {
    if m == 0 then 0.0
    else LeftShare(batch, dist, k, m - 1) + dist(batch[m - 1].individual, batch[k].individual) / |batch| as real
  }

  /** The distance shares member k receives from the pairs (k, b) with lo <= b < hi. */
  function RightShare(batch: seq<EvaluatedIndividual>, dist: Distance, k: nat, lo: nat, hi: nat): real
    requires k < |batch| && lo <= hi <= |batch|
    decreases hi - lo
  {
    if lo == hi then 0.0
    else RightShare(batch, dist, k, lo, hi - 1) + dist(batch[k].individual, batch[hi - 1].individual) / |batch| as real
  }

  /** The novelty member k accumulates over all pairs of the batch. */
  function InBatchNovelty(batch: seq<EvaluatedIndividual>, dist: Distance, k: nat): real
    requires k < |batch|
  {
    LeftShare(batch, dist, k, k) + RightShare(batch, dist, k, k + 1, |batch|)
  }

  /** The distances from member k to every other member, each measured with
      the earlier member of the pair first, as the pairs are formed. */
  function DistancesToOthers(batch: seq<EvaluatedIndividual>, dist: Distance, k: nat): (r: seq<real>)
    requires k < |batch|
    ensures |r| == |batch| - 1
  {
    LeftDistances(batch, dist, k, k) + RightDistances(batch, dist, k, k + 1, |batch|)
  }

  /** The distances from the members before m to member k, the earlier member first. */
  function LeftDistances(batch: seq<EvaluatedIndividual>, dist: Distance, k: nat, m: nat): seq<real>
    requires k < |batch| && m <= |batch|
  {
    seq(m, a requires 0 <= a < m => dist(batch[a].individual, batch[k].individual))
  }

  /** The distances from member k to the members lo to hi - 1, member k first. */
  function RightDistances(batch: seq<EvaluatedIndividual>, dist: Distance, k: nat, lo: nat, hi: nat): seq<real>
    requires k < |batch| && lo <= hi <= |batch|
  {
    seq(hi - lo, t requires 0 <= t < hi - lo => dist(batch[k].individual, batch[lo + t].individual))
  }

  function ScoredBatch(batch: seq<EvaluatedIndividual>, dist: Distance): (r: seq<NovelEntry>)
    ensures |r| == |batch|
  {
    seq(|batch|, k requires 0 <= k < |batch| => NovelEntry(batch[k], InBatchNovelty(batch, dist, k)))
  }

  lemma {:induction false} LeftShareSum(batch: seq<EvaluatedIndividual>, dist: Distance, k: nat, m: nat)
    requires k < |batch| && m <= |batch|
    ensures LeftShare(batch, dist, k, m) == Sum(LeftDistances(batch, dist, k, m)) / |batch| as real
  {
    if m > 0 {
      LeftShareSum(batch, dist, k, m - 1);
      var s, s' := LeftDistances(batch, dist, k, m), LeftDistances(batch, dist, k, m - 1);
      assert s == s' + [s[m - 1]];
      SumAppend(s', [s[m - 1]]);
      DivAdd(Sum(s'), s[m - 1], |batch| as real);
    }
  }

  lemma {:induction false} RightShareSum(batch: seq<EvaluatedIndividual>, dist: Distance, k: nat, lo: nat, hi: nat)
    requires k < |batch| && lo <= hi <= |batch|
    ensures RightShare(batch, dist, k, lo, hi) == Sum(RightDistances(batch, dist, k, lo, hi)) / |batch| as real
    decreases hi - lo
  {
    if lo < hi {
      RightShareSum(batch, dist, k, lo, hi - 1);
      var s, s' := RightDistances(batch, dist, k, lo, hi), RightDistances(batch, dist, k, lo, hi - 1);
      assert s == s' + [s[hi - 1 - lo]];
      SumAppend(s', [s[hi - 1 - lo]]);
      DivAdd(Sum(s'), s[hi - 1 - lo], |batch| as real);
    }
  }

  /** A member's in-batch novelty is the sum of its distances to every other member divided by the batch size. */
  lemma InBatchNoveltyIsDistanceSum(batch: seq<EvaluatedIndividual>, dist: Distance, k: nat)
    requires k < |batch|
    ensures InBatchNovelty(batch, dist, k) == Sum(DistancesToOthers(batch, dist, k)) / |batch| as real
  {
    var left, right := LeftDistances(batch, dist, k, k), RightDistances(batch, dist, k, k + 1, |batch|);
    LeftShareSum(batch, dist, k, k);
    RightShareSum(batch, dist, k, k + 1, |batch|);
    SumAppend(left, right);
    DivAdd(Sum(left), Sum(right), |batch| as real);
  }

  /** With non-negative distances every in-batch novelty is non-negative. */
  lemma InBatchNoveltyNonNegative(batch: seq<EvaluatedIndividual>, dist: Distance, k: nat)
    requires k < |batch|
    requires forall x, y :: dist(x, y) >= 0.0
    ensures InBatchNovelty(batch, dist, k) >= 0.0
  {
    InBatchNoveltyIsDistanceSum(batch, dist, k);
    var d := DistancesToOthers(batch, dist, k);
    forall i | 0 <= i < |d| ensures 0.0 <= d[i] {
      if i < k {
        assert d[i] == dist(batch[i].individual, batch[k].individual);
      } else {
        assert d[i] == dist(batch[k].individual, batch[i + 1].individual);
      }
    }
    SumNonNegative(d);
    DivNonNegative(Sum(d), |batch| as real);
  }

  /** The pairs (a, b) with a < i have been credited: each member before i holds
      its whole novelty, each later member its shares from those pairs. */
  ghost predicate RowsCredited(batch: seq<EvaluatedIndividual>, dist: Distance, novelty: seq<real>, i: nat)
    requires i <= |batch|
  {
    && |novelty| == |batch|
    && forall k :: 0 <= k < |batch| ==>
         novelty[k] == if k < i then LeftShare(batch, dist, k, k) + RightShare(batch, dist, k, k + 1, |batch|)
                       else LeftShare(batch, dist, k, i)
  }

  /** One pass of the inner loop: the pairs (i, j), i < j, in order, each crediting
      its distance share to both members. */
  method CreditRow(batch: seq<EvaluatedIndividual>, dist: Distance, novelty: array<real>, i: nat)
    requires i < |batch| && RowsCredited(batch, dist, novelty[..], i)
    modifies novelty
    ensures RowsCredited(batch, dist, novelty[..], i + 1)
  {
    var n := |batch|;
    var j := i + 1;
    while j < n
      invariant i + 1 <= j <= n && novelty.Length == n
      invariant forall k :: 0 <= k < n ==>
        novelty[k] == if k < i then LeftShare(batch, dist, k, k) + RightShare(batch, dist, k, k + 1, n)
                      else if k == i then LeftShare(batch, dist, i, i) + RightShare(batch, dist, i, i + 1, j)
                      else if k < j then LeftShare(batch, dist, k, i + 1)
                      else LeftShare(batch, dist, k, i)
    {
      var d := dist(batch[i].individual, batch[j].individual);
      novelty[i] := novelty[i] + d / |batch| as real;
      novelty[j] := novelty[j] + d / |batch| as real;
      j := j + 1;
    }
  }

  /** Scores every member of the batch, visiting each pair (i, j), i < j, once
      in `combinations` order and crediting the pair's distance divided by the
      batch size to both members. A one-member batch has no pairs, so its member
      never gets a novelty and the subsequent sort by novelty fails. */
  method EvaluateNoveltyWithinPopulation(batch: seq<EvaluatedIndividual>, dist: Distance)
    returns (r: Result<seq<NovelEntry>, EvolverError>)
    ensures r.Failure? <==> |batch| == 1
    ensures r.Failure? ==> r.error == NoveltyNotSet
    ensures r.Success? ==> r.value == ScoredBatch(batch, dist)
  {
    var n := |batch|;
    var novelty := new real[n](_ => 0.0);
    var i := 0;
    while i < n
      invariant 0 <= i <= n && novelty.Length == n
      invariant RowsCredited(batch, dist, novelty[..], i)
    {
      CreditRow(batch, dist, novelty, i);
      i := i + 1;
    }
    if n == 1 {
      return Failure(NoveltyNotSet);
    }
    var values := novelty[..];
    r := Success(seq(n, k requires 0 <= k < n => NovelEntry(batch[k], values[k])));
  }

  // ---------------------------------------------------------------------------
  // Novelty relative to the archive

  function NoveltyOf(e: NovelEntry): real { e.novelty }

  /** The archive ordered by stored novelty, most novel first, ties keeping archive order. */
  function ByNovelty(archive: seq<NovelEntry>): seq<NovelEntry>
  {
    SortBy(archive, ByKeyDesc(NoveltyOf))
  }

  function ArchiveIds(archive: seq<NovelEntry>): (r: seq<CharacterId>)
    ensures |r| == |archive| && forall i :: 0 <= i < |archive| ==> r[i] == IdOf(archive[i])
  {
    seq(|archive|, i requires 0 <= i < |archive| => IdOf(archive[i]))
  }

  /** The values of the id-keyed distance dictionary: one distance per id, to
      the last archive member holding that id, the candidate's own id removed. */
  function DistancesToArchive(x: Individual, archive: seq<NovelEntry>, dist: Distance): seq<real>
  {
    if archive == [] then []
    else
      var m := archive[0].evaluated.individual;
      var counted := m.characterId != x.characterId && m.characterId !in ArchiveIds(archive[1..]);
      (if counted then [dist(x, m)] else []) + DistancesToArchive(x, archive[1..], dist)
  }

  /** The mean distance to the k nearest archive members: the sum of the k
      smallest distances divided by k (a negative k drops |k| from the end). */
  function ArchiveNovelty(x: Individual, archive: seq<NovelEntry>, k: int, dist: Distance): real
    requires k != 0
  {
    Sum(Take(SortBy(DistancesToArchive(x, archive, dist), RealAsc()), k)) / k as real
  }

  /** `calculate_novelty_compared_to_archive`, with its division by zero. */
  function CalculateNovelty(x: Individual, archive: seq<NovelEntry>, k: int, dist: Distance): (r: Result<real, EvolverError>)
    ensures r.Failure? <==> k == 0
  {
    if k == 0 then Failure(ZeroNeighbours) else Success(ArchiveNovelty(x, archive, k, dist))
  }

  /** Member i contributes a distance: its id is not the candidate's, and no later member holds it. */
  ghost predicate CountedAt(x: Individual, archive: seq<NovelEntry>, i: nat)
    requires i < |archive|
  {
    IdOf(archive[i]) != x.characterId && forall j :: i < j < |archive| ==> IdOf(archive[j]) != IdOf(archive[i])
  }

  lemma CountedAtShift(x: Individual, archive: seq<NovelEntry>, i: nat)
    requires 0 < i < |archive|
    ensures CountedAt(x, archive, i) <==> CountedAt(x, archive[1..], i - 1)
  {
    assert forall j :: i - 1 < j < |archive| - 1 ==> archive[1..][j] == archive[j + 1];
  }

  /** A distance is counted for exactly those members whose id differs from
      the candidate's and is not held by any later member. */
  lemma {:induction false} DistancesToArchiveMembers(x: Individual, archive: seq<NovelEntry>, dist: Distance, d: real)
    ensures d in DistancesToArchive(x, archive, dist) <==>
      exists i :: 0 <= i < |archive| && CountedAt(x, archive, i) && d == dist(x, archive[i].evaluated.individual)
  {
    if archive != [] {
      var rest := archive[1..];
      var m := archive[0];
      DistancesToArchiveMembers(x, rest, dist, d);
      var later := DistancesToArchive(x, rest, dist);
      assert CountedAt(x, archive, 0) <==> IdOf(m) != x.characterId && IdOf(m) !in ArchiveIds(rest) by {
        assert forall j :: 0 < j < |archive| ==> ArchiveIds(rest)[j - 1] == IdOf(archive[j]);
      }
      if d in later {
        var i :| 0 <= i < |rest| && CountedAt(x, rest, i) && d == dist(x, rest[i].evaluated.individual);
        CountedAtShift(x, archive, i + 1);
      }
      if exists i :: 0 < i < |archive| && CountedAt(x, archive, i) && d == dist(x, archive[i].evaluated.individual) {
        var i :| 0 < i < |archive| && CountedAt(x, archive, i) && d == dist(x, archive[i].evaluated.individual);
        CountedAtShift(x, archive, i);
        assert rest[i - 1] == archive[i];
      }
    }
  }

  /** When archive ids are distinct and differ from the candidate's, every member contributes its distance, in archive order. */
  lemma {:induction false} DistancesToDistinctArchive(x: Individual, archive: seq<NovelEntry>, dist: Distance)
    requires forall i, j :: 0 <= i < j < |archive| ==> IdOf(archive[i]) != IdOf(archive[j])
    requires forall i :: 0 <= i < |archive| ==> IdOf(archive[i]) != x.characterId
    ensures DistancesToArchive(x, archive, dist)
            == seq(|archive|, i requires 0 <= i < |archive| => dist(x, archive[i].evaluated.individual))
  {
    if archive != [] {
      var rest := archive[1..];
      DistancesToDistinctArchive(x, rest, dist);
      assert IdOf(archive[0]) !in ArchiveIds(rest) by {
        forall j | 0 <= j < |rest| ensures ArchiveIds(rest)[j] != IdOf(archive[0]) {
          assert rest[j] == archive[j + 1];
        }
      }
    }
  }

  /** The novelty values stored in the archive never influence archive novelty: only the individuals do. */
  lemma {:induction false} DistancesIgnoreStoredNovelty(x: Individual, a: seq<NovelEntry>, b: seq<NovelEntry>, dist: Distance)
    requires |a| == |b|
    requires forall i :: 0 <= i < |a| ==> a[i].evaluated.individual == b[i].evaluated.individual
    ensures DistancesToArchive(x, a, dist) == DistancesToArchive(x, b, dist)
  {
    if a != [] {
      DistancesIgnoreStoredNovelty(x, a[1..], b[1..], dist);
      assert ArchiveIds(a[1..]) == ArchiveIds(b[1..]);
    }
  }

  /** The first min(k, |d|) of the increasingly sorted d are the smallest of d. */
  lemma SmallestPrefix(d: seq<real>, k: int)
    requires k > 0
    ensures var sorted := SortBy(d, RealAsc());
      var m := Min(k, |d|);
      && Take(sorted, k) == sorted[..m]
      && multiset(sorted[..m]) + multiset(sorted[m..]) == multiset(d)
      && forall i, j :: 0 <= i < m <= j < |d| ==> sorted[i] <= sorted[j]
  {
    var sorted := SortBy(d, RealAsc());
    SortRealAsc(d);
    var m := Min(k, |d|);
    SplitMultiset(sorted, m);
  }

  /** Only the archive's individuals, not its stored novelties, determine a candidate's archive novelty. */
  lemma ArchiveNoveltyIgnoresStoredNovelty(x: Individual, a: seq<NovelEntry>, b: seq<NovelEntry>, k: int, dist: Distance)
    requires k != 0 && |a| == |b|
    requires forall i :: 0 <= i < |a| ==> a[i].evaluated.individual == b[i].evaluated.individual
    ensures ArchiveNovelty(x, a, k, dist) == ArchiveNovelty(x, b, k, dist)
  {
    DistancesIgnoreStoredNovelty(x, a, b, dist);
  }

  /** Archive novelty is the sum of the min(k, |D|) smallest distances D,
      divided by k: the distances taken are no larger than those left out. */
  lemma ArchiveNoveltyNearest(x: Individual, archive: seq<NovelEntry>, k: int, dist: Distance)
    requires k > 0
    ensures var d := DistancesToArchive(x, archive, dist);
      var sorted := SortBy(d, RealAsc());
      var m := Min(k, |d|);
      && ArchiveNovelty(x, archive, k, dist) == Sum(sorted[..m]) / k as real
      && multiset(sorted[..m]) + multiset(sorted[m..]) == multiset(d)
      && forall i, j :: 0 <= i < m <= j < |d| ==> sorted[i] <= sorted[j]
  {
    SmallestPrefix(DistancesToArchive(x, archive, dist), k);
  }

  /** With no more distances than k, archive novelty is their sum divided by k, not their mean. */
  lemma ArchiveNoveltyFewNeighbours(x: Individual, archive: seq<NovelEntry>, k: int, dist: Distance)
    requires k > 0 && |DistancesToArchive(x, archive, dist)| <= k
    ensures ArchiveNovelty(x, archive, k, dist) == Sum(DistancesToArchive(x, archive, dist)) / k as real
  {
    var d := DistancesToArchive(x, archive, dist);
    SortRealAsc(d);
    assert Take(SortBy(d, RealAsc()), k) == SortBy(d, RealAsc());
    SumPermutation(SortBy(d, RealAsc()), d);
  }

  /** With non-negative distances and k > 0, archive novelty is non-negative. */
  lemma ArchiveNoveltyNonNegative(x: Individual, archive: seq<NovelEntry>, k: int, dist: Distance)
    requires k > 0
    requires forall p, q :: dist(p, q) >= 0.0
    ensures ArchiveNovelty(x, archive, k, dist) >= 0.0
  {
    var d := DistancesToArchive(x, archive, dist);
    var sorted := SortBy(d, RealAsc());
    SmallestPrefix(d, k);
    var taken := Take(sorted, k);
    forall i | 0 <= i < |taken| ensures 0.0 <= taken[i] {
      assert taken[i] in multiset(d);
      DistancesToArchiveMembers(x, archive, dist, taken[i]);
    }
    SumNonNegative(taken);
    DivNonNegative(Sum(taken), k as real);
  }

  // ---------------------------------------------------------------------------
  // Maintaining the archive

  /** The least stored novelty in a non-empty archive: that of the last entry once ordered. */
  function LeastNovelty(archive: seq<NovelEntry>): real
    requires archive != []
  {
    ByNovelty(archive)[|archive| - 1].novelty
  }

  /** The least stored novelty is the minimum over the archive, and some entry holds it. */
  lemma LeastNoveltyIsMinimum(archive: seq<NovelEntry>)
    requires archive != []
    ensures forall i :: 0 <= i < |archive| ==> LeastNovelty(archive) <= archive[i].novelty
    ensures exists i :: 0 <= i < |archive| && archive[i] == ByNovelty(archive)[|archive| - 1]
  {
    SortByKeyDesc(archive, NoveltyOf);
    var ordered := ByNovelty(archive);
    assert ordered[|archive| - 1] in multiset(archive);
  }

  /** A full archive meeting a candidate of archive novelty `score`: if the
      score beats the least stored novelty, the archive is ordered by novelty
      and its least novel entry is replaced by the candidate carrying `stored`;
      otherwise nothing changes. */
  function ReplaceLeast(archive: seq<NovelEntry>, evaluated: EvaluatedIndividual, score: real, stored: real): (r: seq<NovelEntry>)
    requires archive != []
    ensures |r| == |archive|
  {
    var ordered := ByNovelty(archive);
    if score > ordered[|ordered| - 1].novelty then ordered[|ordered| - 1 := NovelEntry(evaluated, stored)]
    else archive
  }

  /** One candidate against the archive: appended while the archive is below
      capacity; otherwise `ReplaceLeast`, deciding on the candidate's novelty
      relative to the archive as it stands and storing its novelty relative
      to the archive once ordered by novelty. */
  function ConsiderIndividual(archive: seq<NovelEntry>, candidate: NovelEntry, cap: int, k: int, dist: Distance): (r: seq<NovelEntry>)
    requires archive != [] && k != 0
    ensures |archive| <= |r| <= Max(|archive|, cap)
  {
    if |archive| < cap then archive + [candidate]
    else
      var x := candidate.evaluated.individual;
      ReplaceLeast(archive, candidate.evaluated, ArchiveNovelty(x, archive, k, dist), ArchiveNovelty(x, ByNovelty(archive), k, dist))
  }

  lemma MultisetUpdateLast(s: seq<NovelEntry>, v: NovelEntry)
    requires s != []
    ensures multiset(s[|s| - 1 := v]) == multiset(s) - multiset{s[|s| - 1]} + multiset{v}
  {
    var n := |s|;
    assert s == s[..n - 1] + [s[n - 1]];
    assert s[n - 1 := v] == s[..n - 1] + [v];
  }

  /** The least novel entry is replaced exactly when some stored novelty is below the score. */
  lemma ReplaceLeastDecision(archive: seq<NovelEntry>, evaluated: EvaluatedIndividual, score: real, stored: real)
    requires archive != []
    ensures ReplaceLeast(archive, evaluated, score, stored)
      == if exists i :: 0 <= i < |archive| && archive[i].novelty < score
         then ByNovelty(archive)[|archive| - 1 := NovelEntry(evaluated, stored)]
         else archive
  {
    BeatsLeastNovelty(archive, score);
  }

  /** A score beats the least stored novelty exactly when it beats some stored novelty. */
  lemma BeatsLeastNovelty(archive: seq<NovelEntry>, score: real)
    requires archive != []
    ensures score > LeastNovelty(archive) <==> exists i :: 0 <= i < |archive| && archive[i].novelty < score
  {
    var n := |archive|;
    LeastNoveltyIsMinimum(archive);
    var m :| 0 <= m < n && archive[m] == ByNovelty(archive)[n - 1];
    if exists i :: 0 <= i < n && archive[i].novelty < score {
      var i :| 0 <= i < n && archive[i].novelty < score;
      assert LeastNovelty(archive) <= archive[i].novelty;
    } else {
      assert !(archive[m].novelty < score);
    }
  }

  /** A full archive whose stored novelties are all at least the candidate's archive novelty is left as it is. */
  lemma ConsiderIndividualRejects(archive: seq<NovelEntry>, candidate: NovelEntry, cap: int, k: int, dist: Distance)
    requires archive != [] && k != 0 && |archive| >= cap
    requires forall i :: 0 <= i < |archive| ==>
      ArchiveNovelty(candidate.evaluated.individual, archive, k, dist) <= archive[i].novelty
    ensures ConsiderIndividual(archive, candidate, cap, k, dist) == archive
  {
    var x := candidate.evaluated.individual;
    ReplaceLeastDecision(archive, candidate.evaluated, ArchiveNovelty(x, archive, k, dist), ArchiveNovelty(x, ByNovelty(archive), k, dist));
  }

  /** A full archive with some stored novelty below the score loses one least novel entry and gains
      the candidate carrying the stored value. */
  lemma ReplaceLeastAdmits(archive: seq<NovelEntry>, evaluated: EvaluatedIndividual, score: real, stored: real, below: nat)
    requires below < |archive| && archive[below].novelty < score
    ensures exists i ::
      && 0 <= i < |archive|
      && (forall j :: 0 <= j < |archive| ==> archive[i].novelty <= archive[j].novelty)
      && multiset(ReplaceLeast(archive, evaluated, score, stored)) == multiset(archive) - multiset{archive[i]} + multiset{NovelEntry(evaluated, stored)}
  {
    var n := |archive|;
    var ordered := ByNovelty(archive);
    var entry := NovelEntry(evaluated, stored);
    LeastNoveltyIsMinimum(archive);
    var i :| 0 <= i < n && archive[i] == ordered[n - 1];
    assert LeastNovelty(archive) == archive[i].novelty <= archive[below].novelty;
    assert ReplaceLeast(archive, evaluated, score, stored) == ordered[n - 1 := entry];
    MultisetUpdateLast(ordered, entry);
  }

  /** A full archive with some stored novelty below the candidate's archive
      novelty loses one least novel entry and gains the candidate, keeping
      its size; the candidate carries its novelty relative to the archive
      ordered by novelty. */
  lemma ConsiderIndividualAdmits(archive: seq<NovelEntry>, candidate: NovelEntry, cap: int, k: int, dist: Distance, below: nat)
    requires archive != [] && k != 0 && |archive| >= cap
    requires below < |archive|
    requires archive[below].novelty < ArchiveNovelty(candidate.evaluated.individual, archive, k, dist)
    ensures var r := ConsiderIndividual(archive, candidate, cap, k, dist);
      && |r| == |archive|
      && exists i :: 0 <= i < |archive|
           && (forall j :: 0 <= j < |archive| ==> archive[i].novelty <= archive[j].novelty)
           && multiset(r) == multiset(archive) - multiset{archive[i]}
                             + multiset{NovelEntry(candidate.evaluated, ArchiveNovelty(candidate.evaluated.individual, ByNovelty(archive), k, dist))}
  {
    var x := candidate.evaluated.individual;
    ReplaceLeastAdmits(archive, candidate.evaluated, ArchiveNovelty(x, archive, k, dist), ArchiveNovelty(x, ByNovelty(archive), k, dist), below);
  }

  /** On a full archive, ConsiderIndividual replaces the least novel entry of the
      ordered archive exactly when some stored novelty is below the candidate's
      archive novelty; the new entry carries the novelty relative to the ordered archive. */
  lemma ConsiderIndividualDecision(archive: seq<NovelEntry>, candidate: NovelEntry, cap: int, k: int, dist: Distance, more: bool)
    requires archive != [] && k != 0 && |archive| >= cap
    requires more <==> exists i :: 0 <= i < |archive| && archive[i].novelty
                                    < ArchiveNovelty(candidate.evaluated.individual, archive, k, dist)
    ensures ConsiderIndividual(archive, candidate, cap, k, dist)
      == if more then ByNovelty(archive)[|archive| - 1 := NovelEntry(candidate.evaluated, ArchiveNovelty(candidate.evaluated.individual, ByNovelty(archive), k, dist))]
         else archive
  {
    var x := candidate.evaluated.individual;
    ReplaceLeastDecision(archive, candidate.evaluated, ArchiveNovelty(x, archive, k, dist), ArchiveNovelty(x, ByNovelty(archive), k, dist));
  }

  /** The candidates considered one after the other, in order. */
  function ConsiderAll(archive: seq<NovelEntry>, candidates: seq<NovelEntry>, cap: int, k: int, dist: Distance): (r: seq<NovelEntry>)
    requires archive != [] && k != 0
    ensures |archive| <= |r| <= Max(|archive|, cap)
    decreases |candidates|
  {
    if candidates == [] then archive
    else
      var before := ConsiderAll(archive, candidates[..|candidates| - 1], cap, k, dist);
      ConsiderIndividual(before, candidates[|candidates| - 1], cap, k, dist)
  }

  /** The archive with every stored novelty reset to 0. */
  function Reset(archive: seq<NovelEntry>): (r: seq<NovelEntry>)
    ensures |r| == |archive|
  {
    seq(|archive|, i requires 0 <= i < |archive| => NovelEntry(archive[i].evaluated, 0.0))
  }

  /** The archive with every stored novelty recomputed relative to the archive itself. */
  function Refreshed(archive: seq<NovelEntry>, k: int, dist: Distance): (r: seq<NovelEntry>)
    requires archive != [] ==> k != 0
    ensures |r| == |archive|
  {
    seq(|archive|, i requires 0 <= i < |archive| =>
      NovelEntry(archive[i].evaluated, ArchiveNovelty(archive[i].evaluated.individual, archive, k, dist)))
  }

  /** Recomputes each stored novelty in archive order. Each computation sees
      the entries already updated, which does not matter because stored
      novelties never enter the computation. */
  method RefreshNovelties(archive: seq<NovelEntry>, k: int, dist: Distance) returns (r: seq<NovelEntry>)
    requires k != 0
    ensures r == Refreshed(archive, k, dist)
  {
    r := Reset(archive);
    var i := 0;
    while i < |r|
      invariant 0 <= i <= |r| == |archive|
      invariant forall j :: 0 <= j < |archive| ==> r[j].evaluated == archive[j].evaluated
      invariant forall j :: 0 <= j < i ==>
        r[j].novelty == ArchiveNovelty(archive[j].evaluated.individual, archive, k, dist)
    {
      var x := r[i].evaluated.individual;
      var score := ArchiveNovelty(x, r, k, dist);
      ArchiveNoveltyIgnoresStoredNovelty(x, r, archive, k, dist);
      r := r[i := NovelEntry(r[i].evaluated, score)];
      i := i + 1;
    }
  }

  /** The error raised, if any, and the archive left behind. */
  datatype Outcome = Outcome(error: Option<EvolverError>, archive: seq<NovelEntry>)

  /** Each ordered candidate considered in turn against a non-empty archive.
      With k == 0 the first candidate meeting a full archive divides by zero. */
  function ConsiderCandidates(archive: seq<NovelEntry>, ordered: seq<NovelEntry>, cap: int, k: int, dist: Distance): Outcome
    requires archive != []
  {
    if k != 0 then Outcome(None, ConsiderAll(archive, ordered, cap, k, dist))
    else if ordered != [] && |archive| + |ordered| > cap then
      Outcome(Some(ZeroNeighbours), archive + Take(ordered, Max(cap - |archive|, 0)))
    else Outcome(None, archive + ordered)
  }

  /** Considering a batch for the archive: the batch is scored and ordered by
      in-batch novelty; an empty archive takes the leading `cap` of them,
      otherwise each is considered in turn; then every stored novelty is reset
      and recomputed, which divides by zero when k == 0 and the archive is not empty. */
  function ConsiderBatch(archive: seq<NovelEntry>, batch: seq<EvaluatedIndividual>, cap: int, k: int, dist: Distance): Outcome
  {
    if |batch| == 1 then Outcome(Some(NoveltyNotSet), archive)
    else
      var ordered := ByNovelty(ScoredBatch(batch, dist));
      var considered := if archive == [] then Outcome(None, Take(ordered, cap))
                        else ConsiderCandidates(archive, ordered, cap, k, dist);
      if considered.error.Some? then considered
      else if k == 0 && considered.archive != [] then Outcome(Some(ZeroNeighbours), Reset(considered.archive))
      else Outcome(None, Refreshed(considered.archive, k, dist))
  }

  /** Considering a batch never takes a non-negative capacity's archive over capacity, error or not. */
  lemma ConsiderBatchBounded(archive: seq<NovelEntry>, batch: seq<EvaluatedIndividual>, cap: int, k: int, dist: Distance)
    requires 0 <= cap ==> |archive| <= cap
    ensures 0 <= cap ==> |ConsiderBatch(archive, batch, cap, k, dist).archive| <= cap
  {
  }

  /** A successful consideration leaves every stored novelty equal to the
      entry's novelty relative to the final archive. */
  lemma ConsiderBatchRefreshes(archive: seq<NovelEntry>, batch: seq<EvaluatedIndividual>, cap: int, k: int, dist: Distance)
    requires ConsiderBatch(archive, batch, cap, k, dist).error.None?
    ensures var a := ConsiderBatch(archive, batch, cap, k, dist).archive;
      a != [] ==> k != 0 && forall i :: 0 <= i < |a| ==>
        a[i].novelty == ArchiveNovelty(a[i].evaluated.individual, a, k, dist)
  {
    var a := ConsiderBatch(archive, batch, cap, k, dist).archive;
    if a != [] {
      var ordered := ByNovelty(ScoredBatch(batch, dist));
      var pre := if archive == [] then Take(ordered, cap) else ConsiderCandidates(archive, ordered, cap, k, dist).archive;
      assert k != 0 && a == Refreshed(pre, k, dist);
      RefreshedIsStable(pre, k, dist);
    }
  }

  /** Refreshing leaves every stored novelty equal to the entry's novelty relative to the refreshed archive. */
  lemma RefreshedIsStable(archive: seq<NovelEntry>, k: int, dist: Distance)
    requires k != 0
    ensures var a := Refreshed(archive, k, dist);
      forall i :: 0 <= i < |a| ==> a[i].novelty == ArchiveNovelty(a[i].evaluated.individual, a, k, dist)
  {
    var a := Refreshed(archive, k, dist);
    forall i | 0 <= i < |a| ensures a[i].novelty == ArchiveNovelty(a[i].evaluated.individual, a, k, dist) {
      DistancesIgnoreStoredNovelty(a[i].evaluated.individual, a, archive, dist);
    }
  }

  // ---------------------------------------------------------------------------
  // The evolver

  /** How many of the best-ranked individuals are considered for the archive: half the population, at least two. */
  function NoveltyBatchSize(n: nat): int
  {
    Max(n / 2, 2)
  }

  class FitnessAndNoveltyEvolver {
    const config: Config
    const distance: Distance
    var novelArchive: seq<NovelEntry>
    /** How many individuals the producer has made so far. */
    var producerCalls: nat

    ghost predicate Valid()
      reads this
    {
      && ConfigProblem(config).None?
      && (config.novelArchiveSize >= 0 ==> |novelArchive| <= config.novelArchiveSize)
    }

    constructor (config: Config, distance: Distance)
      requires ConfigProblem(config).None?
      ensures Valid()
      ensures this.config == config && this.distance == distance
      ensures novelArchive == [] && producerCalls == 0
    {
      this.config := config;
      this.distance := distance;
      novelArchive := [];
      producerCalls := 0;
    }

    /** The archive, most novel first. */
    function GetOrderedNovelArchive(): (r: seq<NovelEntry>)
      reads this
      ensures multiset(r) == multiset(novelArchive)
      ensures forall i, j :: 0 <= i < j < |r| ==> r[i].novelty >= r[j].novelty
    {
      SortByKeyDesc(novelArchive, NoveltyOf);
      ByNovelty(novelArchive)
    }

    /** Whether the candidate's archive novelty exceeds the least stored novelty. */
    method IsMoreNovelThanLeastNovelInArchive(candidate: NovelEntry) returns (r: Result<bool, EvolverError>)
      requires novelArchive != []
      ensures r.Failure? <==> config.nearestNeighbourNumber == 0
      ensures r.Failure? ==> r.error == ZeroNeighbours
      ensures r.Success? ==>
        (r.value <==> exists i :: 0 <= i < |novelArchive| && novelArchive[i].novelty
                                  < ArchiveNovelty(candidate.evaluated.individual, novelArchive, config.nearestNeighbourNumber, distance))
    {
      var ordered := GetOrderedNovelArchive();
      var score := CalculateNovelty(candidate.evaluated.individual, novelArchive, config.nearestNeighbourNumber, distance);
      if score.Failure? {
        return Failure(score.error);
      }
      BeatsLeastNovelty(novelArchive, score.value);
      assert ordered[|ordered| - 1].novelty == LeastNovelty(novelArchive);
      r := Success(score.value > ordered[|ordered| - 1].novelty);
    }

    /** One candidate against the archive (see ConsiderIndividual); a full archive and k == 0 divide by zero. */
    method ConsiderIndividualForNovelArchive(candidate: NovelEntry) returns (err: Option<EvolverError>)
      requires novelArchive != []
      modifies this`novelArchive
      ensures |old(novelArchive)| < config.novelArchiveSize ==> err.None? && novelArchive == old(novelArchive) + [candidate]
      ensures config.nearestNeighbourNumber != 0 ==>
        err.None? && novelArchive == ConsiderIndividual(old(novelArchive), candidate, config.novelArchiveSize, config.nearestNeighbourNumber, distance)
      ensures config.nearestNeighbourNumber == 0 && |old(novelArchive)| >= config.novelArchiveSize ==>
        err == Some(ZeroNeighbours) && novelArchive == old(novelArchive)
    {
      if |novelArchive| < config.novelArchiveSize {
        novelArchive := novelArchive + [candidate];
        return None;
      }
      var more := IsMoreNovelThanLeastNovelInArchive(candidate);
      if more.Failure? {
        return Some(more.error);
      }
      if more.value {
        var archive := novelArchive;
        var ordered := GetOrderedNovelArchive();
        assert ordered == ByNovelty(archive);
        var score := ArchiveNovelty(candidate.evaluated.individual, ordered, config.nearestNeighbourNumber, distance);
        ConsiderIndividualDecision(archive, candidate, config.novelArchiveSize, config.nearestNeighbourNumber, distance, true);
        novelArchive := ordered[|ordered| - 1 := NovelEntry(candidate.evaluated, score)];
      } else {
        ConsiderIndividualDecision(novelArchive, candidate, config.novelArchiveSize, config.nearestNeighbourNumber, distance, false);
      }
      err := None;
    }

    /** Resets every stored novelty, then recomputes each relative to the archive. */
    method UpdateNoveltyInArchive() returns (err: Option<EvolverError>)
      modifies this`novelArchive
      ensures config.nearestNeighbourNumber == 0 && old(novelArchive) != [] ==>
        err == Some(ZeroNeighbours) && novelArchive == Reset(old(novelArchive))
      ensures config.nearestNeighbourNumber != 0 || old(novelArchive) == [] ==>
        err.None? && novelArchive == Refreshed(old(novelArchive), config.nearestNeighbourNumber, distance)
    {
      var archive := Reset(novelArchive);
      if archive != [] && config.nearestNeighbourNumber == 0 {
        // the first recomputation divides by zero
        novelArchive := archive;
        return Some(ZeroNeighbours);
      }
      if archive != [] {
        novelArchive := RefreshNovelties(novelArchive, config.nearestNeighbourNumber, distance);
      }
      err := None;
    }

    /** Considers the ordered candidates one after the other. */
    method ConsiderEach(ordered: seq<NovelEntry>) returns (err: Option<EvolverError>)
      requires novelArchive != []
      modifies this`novelArchive
      ensures Outcome(err, novelArchive)
        == ConsiderCandidates(old(novelArchive), ordered, config.novelArchiveSize, config.nearestNeighbourNumber, distance)
    {
      var cap, k := config.novelArchiveSize, config.nearestNeighbourNumber;
      var start := novelArchive;
      var i := 0;
      while i < |ordered|
        invariant 0 <= i <= |ordered|
        invariant novelArchive != []
        invariant k == 0 ==> novelArchive == start + ordered[..i] && (i == 0 || |start| + i <= cap)
        invariant k != 0 ==> novelArchive == ConsiderAll(start, ordered[..i], cap, k, distance)
      {
        var e := ConsiderIndividualForNovelArchive(ordered[i]);
        if e.Some? {
          assert Take(ordered, Max(cap - |start|, 0)) == ordered[..i];
          return e;
        }
        assert ordered[..i + 1][..i] == ordered[..i];
        i := i + 1;
      }
      assert ordered[..i] == ordered;
      err := None;
    }

    /** Scores the batch, lets the archive take the most novel of it, and
        recomputes the archive's novelties (see ConsiderBatch). */
    method ConsiderForNovelArchive(batch: seq<EvaluatedIndividual>) returns (err: Option<EvolverError>)
      modifies this`novelArchive
      ensures Outcome(err, novelArchive)
        == ConsiderBatch(old(novelArchive), batch, config.novelArchiveSize, config.nearestNeighbourNumber, distance)
    {
      var scored := EvaluateNoveltyWithinPopulation(batch, distance);
      if scored.Failure? {
        return Some(scored.error);
      }
      var ordered := ByNovelty(scored.value);
      if novelArchive == [] {
        novelArchive := Take(ordered, config.novelArchiveSize);
      } else {
        var e := ConsiderEach(ordered);
        if e.Some? {
          return e;
        }
      }
      err := UpdateNoveltyInArchive();
    }

    /** One generation: rank by fitness, consider the best half for the
        archive, then build the next generation from the ranked individuals. */
    method Call(population: seq<EvaluatedIndividual>) returns (r: Result<seq<Individual>, EvolverError>)
      requires Valid()
      modifies this
      ensures Valid()
      ensures Rank(population).Failure? ==>
        r == Failure(Rank(population).error) && novelArchive == old(novelArchive) && producerCalls == old(producerCalls)
      ensures Rank(population).Success? ==>
        var ordered := Rank(population).value;
        var outcome := ConsiderBatch(old(novelArchive), Take(ordered, NoveltyBatchSize(|ordered|)),
                                     config.novelArchiveSize, config.nearestNeighbourNumber, distance);
        && novelArchive == outcome.archive
        && (outcome.error.Some? ==> r == Failure(outcome.error.value) && producerCalls == old(producerCalls))
        && (outcome.error.None? ==>
              && r == Success(NextGeneration(config, Individuals(ordered), old(producerCalls)))
              && producerCalls == old(producerCalls) + Max(GenerationCounts(|ordered|, config).newIndividuals, 0))
    {
      var ranked := Rank(population);
      if ranked.Failure? {
        return Failure(ranked.error);
      }
      var ordered := ranked.value;
      ConsiderBatchBounded(novelArchive, Take(ordered, NoveltyBatchSize(|ordered|)), config.novelArchiveSize,
                           config.nearestNeighbourNumber, distance);
      var err := ConsiderForNovelArchive(Take(ordered, NoveltyBatchSize(|ordered|)));
      if err.Some? {
        return Failure(err.value);
      }
      var generation := NextGeneration(config, Individuals(ordered), producerCalls);
      producerCalls := producerCalls + Max(GenerationCounts(|ordered|, config).newIndividuals, 0);
      r := Success(generation);
    }
  }

  /** The constructor's checks: a crossover share needs a crossover, a new-individuals share needs a producer. */
  method New(config: Config, distance: Distance) returns (r: Result<FitnessAndNoveltyEvolver, ConfigError>)
    ensures r.Failure? <==> ConfigProblem(config).Some?
    ensures r.Failure? ==> r.error == ConfigProblem(config).value
    ensures r.Success? ==> fresh(r.value) && r.value.Valid() && r.value.config == config
                           && r.value.distance == distance && r.value.novelArchive == [] && r.value.producerCalls == 0
  {
    var problem := ConfigProblem(config);
    if problem.Some? {
      return Failure(problem.value);
    }
    var evolver := new FitnessAndNoveltyEvolver(config, distance);
    r := Success(evolver);
  }
}
