/** The top-level evolution loop and its fixed-generation stopping rule. The loop evaluates the current
    population, evolves the evaluated population, and only then asks the end criterion whether to stop. */
module Evolver {
  import opened Wrappers
  import opened PySemantics
  import opened EvolutionTypes

  // ---------------------------------------------------------------------------
  // The end criterion

  /** A criterion that counts its calls and answers whether the configured number of generations is
      still at least the number of calls so far. */
  class FixedGenerationsEndCriteria {
    const generations: int
    var currGeneration: nat

    constructor (generations: int)
      ensures this.generations == generations && currGeneration == 0
    {
      this.generations := generations;
      currGeneration := 0;
    }

    /** One call: counts itself and gives the answer `FixedGenerationsAnswers(generations)` has for it. */
    method Call() returns (stop: bool)
      modifies this
      ensures currGeneration == old(currGeneration) + 1
      ensures stop == FixedGenerationsAnswers(generations)(currGeneration)
    {
      currGeneration := currGeneration + 1;
      stop := generations >= currGeneration;
    }
  }

  /** The answer of a fresh `FixedGenerationsEndCriteria(generations)` to its k-th call (k from 1). */
  function FixedGenerationsAnswers(generations: int): nat -> bool
  {
    (k: nat) => generations >= k
  }

  /** Starting from a fresh criterion, k calls leave the counter at k, and the last answer is the k-th one. */
  method CallTimes(criteria: FixedGenerationsEndCriteria, k: nat) returns (answers: seq<bool>)
    requires criteria.currGeneration == 0
    modifies criteria
    ensures criteria.currGeneration == k
    ensures |answers| == k && forall i :: 0 <= i < k ==> answers[i] == FixedGenerationsAnswers(criteria.generations)(i + 1)
  {
    answers := [];
    while |answers| < k
      invariant |answers| <= k && criteria.currGeneration == |answers|
      invariant forall i :: 0 <= i < |answers| ==> answers[i] == FixedGenerationsAnswers(criteria.generations)(i + 1)
    {
      var stop := criteria.Call();
      answers := answers + [stop];
    }
  }

  // ---------------------------------------------------------------------------
  // The loop

  /** The call, among the `fuel` calls numbered from `from` on, at which the criterion first answers true. */
  function FirstStop(endCriteria: nat -> bool, from: nat, fuel: nat): (r: Option<nat>)
    ensures r.Some? ==> from <= r.value < from + fuel && endCriteria(r.value)
    decreases fuel
  {
    if fuel == 0 then None
    else if endCriteria(from) then Some(from)
    else FirstStop(endCriteria, from + 1, fuel - 1)
  }

  /** The first true answer is found exactly when it comes within the fuel. */
  lemma {:induction false} FirstStopAt(endCriteria: nat -> bool, from: nat, fuel: nat, target: nat)
    requires from <= target < from + fuel && endCriteria(target)
    requires forall k :: from <= k < target ==> !endCriteria(k)
    ensures FirstStop(endCriteria, from, fuel) == Some(target)
    decreases fuel
  {
    if target != from {
      FirstStopAt(endCriteria, from + 1, fuel - 1, target);
    }
  }

  lemma {:induction false} FirstStopNone(endCriteria: nat -> bool, from: nat, fuel: nat)
    requires forall k :: from <= k < from + fuel ==> !endCriteria(k)
    ensures FirstStop(endCriteria, from, fuel) == None
    decreases fuel
  {
    if fuel != 0 {
      FirstStopNone(endCriteria, from + 1, fuel - 1);
    }
  }

  /** The evaluator and the population evolver are objects with state of their own (the evaluators'
      previous results, the evolver's novelty archive, a novelty archive the two may share), so each call
      takes the state `S` the calls before it left and returns the state it leaves. */
  type Evaluator<!S> = (S, Population) -> (S, seq<EvaluatedIndividual>)
  type PopulationEvolver<!S> = (S, seq<EvaluatedIndividual>) -> (S, Population)

  /** The operators' state and the population the loop evaluates in iteration i (from 0): the initial
      population and state, taken i times through the evaluator and then the evolver. */
  function Generation<S>(initial: Population, state: S, evaluate: Evaluator<S>, evolvePopulation: PopulationEvolver<S>,
                         i: nat): (S, Population)
  {
    if i == 0 then (state, initial)
    else
      var before := Generation(initial, state, evaluate, evolvePopulation, i - 1);
      var evaluated := evaluate(before.0, before.1);
      evolvePopulation(evaluated.0, evaluated.1)
  }

  /** One iteration further: the evaluator and then the evolver, each continuing from the state the call
      before it left. */
  lemma GenerationNext<S>(initial: Population, state: S, evaluate: Evaluator<S>, evolvePopulation: PopulationEvolver<S>,
                          i: nat)
    ensures var before := Generation(initial, state, evaluate, evolvePopulation, i);
      var evaluation := evaluate(before.0, before.1);
      Generation(initial, state, evaluate, evolvePopulation, i + 1) == evolvePopulation(evaluation.0, evaluation.1)
  {
  }

  /** The two operator calls of iteration i: the evaluator on the current population, then the evolver on
      the evaluated population, each continuing from the state the call before it left. */
  method EvaluateAndEvolve<S>(initial: Population, state: S, evaluate: Evaluator<S>,
                              evolvePopulation: PopulationEvolver<S>, i: nat, currState: S, currPopulation: Population)
    returns (newState: S, newPopulation: Population)
    requires (currState, currPopulation) == Generation(initial, state, evaluate, evolvePopulation, i)
    ensures (newState, newPopulation) == Generation(initial, state, evaluate, evolvePopulation, i + 1)
  {
    var evaluation := evaluate(currState, currPopulation);
    var evaluatedPopulation := evaluation.1;
    var evolution := evolvePopulation(evaluation.0, evaluatedPopulation);
    newState, newPopulation := evolution.0, evolution.1;
    GenerationNext(initial, state, evaluate, evolvePopulation, i);
  }

  /** The populations handed to the evaluator in the first k iterations. */
  ghost function Evaluated<S>(initial: Population, state: S, evaluate: Evaluator<S>,
                              evolvePopulation: PopulationEvolver<S>, k: nat): (r: seq<Population>)
    ensures |r| == k
  {
    if k == 0 then []
    else Evaluated(initial, state, evaluate, evolvePopulation, k - 1) + [Generation(initial, state, evaluate, evolvePopulation, k - 1).1]
  }

  /** Iteration i hands the evaluator the initial population evolved i times. */
  lemma {:induction false} EvaluatedAt<S>(initial: Population, state: S, evaluate: Evaluator<S>,
                                          evolvePopulation: PopulationEvolver<S>, k: nat)
    ensures forall i :: 0 <= i < k ==>
      Evaluated(initial, state, evaluate, evolvePopulation, k)[i] == Generation(initial, state, evaluate, evolvePopulation, i).1
  {
    if k > 0 {
      EvaluatedAt(initial, state, evaluate, evolvePopulation, k - 1);
    }
  }

  /** `Evolver.evolve` on the producer's population `initial`, the operators starting in `state` and the
      end criterion's k-th answer being `endCriteria(k)`. The loop has no bound of its own, so at most
      `fuel` iterations are run; the result lists the populations handed to the evaluator (`Evaluated`,
      whose i-th entry is the initial population evolved i times), the operators' final state, the final
      generation counter and whether the criterion stopped the loop. */
  method Evolve<S>(initial: Population, state: S, evaluate: Evaluator<S>, evolvePopulation: PopulationEvolver<S>,
                   endCriteria: nat -> bool, fuel: nat)
    returns (evaluated: seq<Population>, finalState: S, generation: nat, stopped: bool)
    ensures stopped <==> FirstStop(endCriteria, 1, fuel).Some?
    ensures stopped ==> generation + 1 == FirstStop(endCriteria, 1, fuel).value
    ensures !stopped ==> generation == fuel
    ensures |evaluated| == if stopped then generation + 1 else fuel
    ensures evaluated == Evaluated(initial, state, evaluate, evolvePopulation, |evaluated|)
    ensures finalState == Generation(initial, state, evaluate, evolvePopulation, |evaluated|).0
  {
    var currPopulation := initial;
    finalState := state;
    generation := 0;
    evaluated := [];
    stopped := false;
    while generation < fuel
      invariant generation <= fuel && |evaluated| == generation
      invariant (finalState, currPopulation) == Generation(initial, state, evaluate, evolvePopulation, generation)
      invariant evaluated == Evaluated(initial, state, evaluate, evolvePopulation, generation)
      invariant forall k :: 1 <= k <= generation ==> !endCriteria(k)
    {
      evaluated := evaluated + [currPopulation];
      var newPopulation;
      finalState, newPopulation := EvaluateAndEvolve(initial, state, evaluate, evolvePopulation, generation,
                                                     finalState, currPopulation);
      if endCriteria(generation + 1) {
        stopped := true;
        FirstStopAt(endCriteria, 1, fuel, generation + 1);
        return;
      }
      generation := generation + 1;
      currPopulation := newPopulation;
    }
    FirstStopNone(endCriteria, 1, fuel);
  }

  /** As written, a criterion for g >= 1 generations stops the loop after its first iteration, and one
      for g <= 0 never stops it. */
  lemma FixedGenerationsStopAtOnce(generations: int, fuel: nat)
    requires 1 <= fuel
    ensures FirstStop(FixedGenerationsAnswers(generations), 1, fuel) == if generations >= 1 then Some(1) else None
  {
    if generations < 1 {
      FirstStopNone(FixedGenerationsAnswers(generations), 1, fuel);
    }
  }

  /** The criterion with the comparison the other way round: it answers true from the g-th call on. */
  function IntendedGenerationsAnswers(generations: int): nat -> bool
  {
    (k: nat) => k >= generations
  }

  /** The corrected criterion stops the loop after exactly max(g, 1) iterations. */
  lemma IntendedGenerationsStop(generations: int, fuel: nat)
    requires Max(generations, 1) <= fuel
    ensures FirstStop(IntendedGenerationsAnswers(generations), 1, fuel) == Some(Max(generations, 1))
  {
    FirstStopAt(IntendedGenerationsAnswers(generations), 1, fuel, Max(generations, 1));
  }
}
