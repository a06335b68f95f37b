/** The shapes that flow between the components: a character genome
    (`Individual`), its evaluation, and an archive entry with its novelty. */
module EvolutionTypes {
  import opened Wrappers

  type CharacterId = string

  /** A genome attribute value: strings are categorical, numbers are scaled by
      mutation, booleans are flipped. */
  datatype AttributeValue = Text(text: string) | Number(number: real) | Flag(flag: bool)

  datatype Attribute = Attribute(name: string, value: AttributeValue)

  /** An ability: its `type` ("melee" or another kind) and its remaining attributes in dictionary order. */
  datatype Ability = Ability(kind: string, attributes: seq<Attribute>)

  /** A character configuration with its unique `characterId`. */
  datatype Individual = Individual(
    characterId: CharacterId,
    radius: real,
    moveVelocity: real,
    abilities: seq<Ability>)

  type Population = seq<Individual>

  /** An evaluated individual: a fitness list from the fitness evaluators, or a
      feasibility flag from the constrained evaluator. */
  datatype EvaluatedIndividual = EvaluatedIndividual(
    individual: Individual,
    fitness: Option<seq<real>>,
    feasible: Option<bool>)

  /** A member of the novelty archive: an evaluated individual with its stored novelty. */
  datatype NovelEntry = NovelEntry(evaluated: EvaluatedIndividual, novelty: real)

  /** The genome distance; it is supplied by the caller and nothing is required of it. */
  type Distance = (Individual, Individual) -> real

  function IdOf(e: NovelEntry): CharacterId {
    e.evaluated.individual.characterId
  }

  function Individuals(es: seq<EvaluatedIndividual>): (r: seq<Individual>)
    ensures |r| == |es| && forall i :: 0 <= i < |es| ==> r[i] == es[i].individual
  {
    seq(|es|, i requires 0 <= i < |es| => es[i].individual)
  }
}
