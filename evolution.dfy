/** The legacy generational algorithm: keep the fittest fifth (at least two) of the population, make
    one child of every pair of survivors by swapping one ability, and fill the population up with
    mutated clones of children. Genomes are changed in place; `random` and `uuid4` are a stream of
    draws consumed in order. */
module Evolution {
  import opened Wrappers
  import opened PySemantics
  import opened Itertools
  import opened PyDict
  import opened Sorting
  import opened EvolutionTypes

  /** A closed interval [lo, hi] from the configuration files. */
  type Range = (real, real)

  /** The ranges the mutators clamp to: the character's radius and move velocity, and per ability
      kind the numeric attributes. */
  datatype Ranges = Ranges(radius: Range, moveVelocity: Range, melee: map<string, Range>, projectile: map<string, Range>)

  datatype EvolutionError =
    | EmptyRange        // `random.randint(0, -1)`: a genome without abilities, or no children
    | MissingAbility    // the second parent has no ability at the swapped index
    | MissingRange      // a numeric ability attribute without a configured range
    | MissingCharacter  // a survivor id that no member of the population carries
    | TooFewRanked      // fewer ranked characters than survivors to take

  // ---------------------------------------------------------------------------
  // Randomness

  /** The draws of the generator: `unit(k)` is the k-th `random.random()`, `below(k, n)` the k-th
      draw below n (what `randint` is built on), and `uuid(j)` the j-th `uuid4()` string. */
  datatype RawDraws = RawDraws(unit: nat -> real, below: (nat, nat) -> nat, uuid: nat -> string)

  /** `unit(k)` is in [0, 1) and `below(k, n)` is always below n. */
  ghost predicate Bounded(unit: nat -> real, below: (nat, nat) -> nat) {
    && (forall k: nat :: 0.0 <= unit(k) < 1.0)
    && (forall k: nat, n: nat :: 0 < n ==> below(k, n) < n)
  }

  type Draws = d: RawDraws | Bounded(d.unit, d.below)
    witness RawDraws((k: nat) => 0.0, (k: nat, n: nat) => 0, (j: nat) => "")

  /** How many draws and how many uuids have been taken. */
  datatype Position = Position(drawn: nat, issued: nat)

  function NextDraw(p: Position): Position {
    p.(drawn := p.drawn + 1)
  }

  /** `random.uniform(0.5, 1.5)`, which is `0.5 + (1.5 - 0.5) * random()`. */
  function Factor(d: Draws, p: Position): real {
    0.5 + (1.5 - 0.5) * d.unit(p.drawn)
  }

  /** The generator and uuid source: one object whose counters advance as draws are taken. */
  class RandomSource {
    const draws: Draws
    var drawn: nat
    var issued: nat

    constructor (draws: Draws)
      ensures this.draws == draws && drawn == 0 && issued == 0
    {
      this.draws := draws;
      drawn := 0;
      issued := 0;
    }

    function At(): Position
      reads this
    {
      Position(drawn, issued)
    }

    /** `random.random()`. */
    method Random() returns (x: real)
      modifies this
      ensures x == draws.unit(old(drawn)) && At() == NextDraw(old(At()))
    {
      x := draws.unit(drawn);
      drawn := drawn + 1;
    }

    /** `random.uniform(a, b)`. */
    method Uniform(a: real, b: real) returns (x: real)
      modifies this
      ensures x == a + (b - a) * draws.unit(old(drawn)) && At() == NextDraw(old(At()))
    {
      var u := Random();
      x := a + (b - a) * u;
    }

    /** `random.randint(a, b)`: a draw in [a, b]; an empty range raises. */
    method RandInt(a: int, b: int) returns (r: Result<int, EvolutionError>)
      modifies this
      ensures a <= b ==> r == Success(a + draws.below(old(drawn), b - a + 1)) && At() == NextDraw(old(At()))
      ensures b < a ==> r == Failure(EmptyRange) && At() == old(At())
      ensures r.Success? ==> a <= r.value <= b
    {
      if b < a {
        return Failure(EmptyRange);
      }
      r := Success(a + draws.below(drawn, b - a + 1));
      drawn := drawn + 1;
    }

    /** `str(uuid.uuid4())`. */
    method Uuid4() returns (id: CharacterId)
      modifies this
      ensures id == draws.uuid(old(issued)) && At() == old(At()).(issued := old(issued) + 1)
    {
      id := draws.uuid(issued);
      issued := issued + 1;
    }
  }

  // ---------------------------------------------------------------------------
  // Genomes

  /** A genome dictionary, changed in place by the mutators. */
  class Genome {
    var characterId: CharacterId
    var radius: real
    var moveVelocity: real
    var abilities: seq<Ability>

    /** A deep copy of a genome. */
    constructor (g: Individual)
      ensures Value() == g
    {
      characterId := g.characterId;
      radius := g.radius;
      moveVelocity := g.moveVelocity;
      abilities := g.abilities;
    }

    function Value(): Individual
      reads this
    {
      Individual(characterId, radius, moveVelocity, abilities)
    }
  }

  // ---------------------------------------------------------------------------
  // Scaling a value

  /** A value scaled by `factor`, clamped on one side only: from above when it grows, from below when it shrinks. */
  function Scaled(value: real, range: Range, factor: real): real
  {
    if factor > 1.0 then RealMin(factor * value, range.1) else RealMax(factor * value, range.0)
  }

  /** A growing value is clamped from above, a shrinking one from below; otherwise it is the product. */
  lemma ScaledBounds(value: real, range: Range, factor: real)
    ensures var r := Scaled(value, range, factor);
      && (factor > 1.0 ==> r <= range.1 && (r == range.1 || r == factor * value))
      && (factor <= 1.0 ==> range.0 <= r && (r == range.0 || r == factor * value))
  {
  }

  /** A non-negative value in its range stays there, whatever the positive factor. */
  lemma ScaledInRange(value: real, range: Range, factor: real)
    requires 0.0 <= range.0 <= value <= range.1 && 0.0 < factor
    ensures range.0 <= Scaled(value, range, factor) <= range.1
  {
    ScaledBounds(value, range, factor);
    if factor > 1.0 {
      assert factor * value >= value by {
        assert factor * value - value == (factor - 1.0) * value;
      }
    } else {
      assert factor * value <= value by {
        assert value - factor * value == (1.0 - factor) * value;
      }
    }
  }

  /** The radius and move-velocity mutation: the scaled value truncated to an integer. A growing value does
      not pass a non-negative maximum; a shrinking one does not fall below the integer part of a
      non-negative minimum. */
  function ScaledInt(value: real, range: Range, factor: real): int
  {
    Trunc(Scaled(value, range, factor))
  }

  lemma ScaledIntBounds(value: real, range: Range, factor: real)
    ensures factor > 1.0 && 0.0 <= range.1 ==> ScaledInt(value, range, factor) as real <= range.1
    ensures factor <= 1.0 && 0.0 <= range.0 ==> range.0.Floor <= ScaledInt(value, range, factor)
  {
    ScaledBounds(value, range, factor);
  }

  /** The two branches of the scaling. */
  lemma ScaledCases(value: real, range: Range, factor: real)
    ensures factor > 1.0 ==> Scaled(value, range, factor) == RealMin(factor * value, range.1)
    ensures factor <= 1.0 ==> Scaled(value, range, factor) == RealMax(factor * value, range.0)
  {
  }

  /** The two branches of the truncated scaling. */
  lemma ScaledIntCases(value: real, range: Range, factor: real)
    ensures factor > 1.0 ==> ScaledInt(value, range, factor) == Trunc(RealMin(factor * value, range.1))
    ensures factor <= 1.0 ==> ScaledInt(value, range, factor) == Trunc(RealMax(factor * value, range.0))
  {
  }

  /** With integer bounds, a non-negative value in its range stays there after truncation. */
  lemma ScaledIntInRange(value: real, range: Range, factor: real)
    requires 0.0 <= range.0 <= value <= range.1 && 0.0 < factor
    requires range.0 == range.0.Floor as real && range.1 == range.1.Floor as real
    ensures range.0 <= ScaledInt(value, range, factor) as real <= range.1
  {
    ScaledInRange(value, range, factor);
  }

  // ---------------------------------------------------------------------------
  // Mutating abilities

  /** One attribute: text is left alone; a number is scaled within the range of its name, drawing a
      factor; a flag flips when its draw exceeds 1 - 0.2. */
  function MutatedAttribute(attribute: Attribute, ranges: map<string, Range>, d: Draws, p: Position)
    : (r: Result<(Attribute, Position), EvolutionError>)
    ensures r.Failure? <==> attribute.value.Number? && attribute.name !in ranges
    ensures r.Success? ==> r.value.0.name == attribute.name
    ensures r.Success? && attribute.value.Text? ==> r.value == (attribute, p)
    ensures r.Success? && attribute.value.Number? ==>
      r.value.1 == NextDraw(p) && r.value.0.value == Number(Scaled(attribute.value.number, ranges[attribute.name], Factor(d, p)))
    ensures r.Success? && attribute.value.Flag? ==>
      r.value.1 == NextDraw(p) && r.value.0.value == Flag(if d.unit(p.drawn) > 0.8 then !attribute.value.flag else attribute.value.flag)
  {
    match attribute.value
    case Text(_) => Success((attribute, p))
    case Number(v) =>
      if attribute.name !in ranges then Failure(MissingRange)
      else Success((Attribute(attribute.name, Number(Scaled(v, ranges[attribute.name], Factor(d, p)))), NextDraw(p)))
    case Flag(b) =>
      Success((Attribute(attribute.name, Flag(if d.unit(p.drawn) > 0.8 then !b else b)), NextDraw(p)))
  }

  /** A failure, or a successful result with `done` put in front of its list. */
  function Prefixed<T>(done: seq<T>, r: Result<(seq<T>, Position), EvolutionError>): Result<(seq<T>, Position), EvolutionError>
  {
    if r.Failure? then r else Success((done + r.value.0, r.value.1))
  }

  /** The attributes of an ability, mutated in order. */
  function MutatedAttributes(attributes: seq<Attribute>, ranges: map<string, Range>, d: Draws, p: Position)
    : Result<(seq<Attribute>, Position), EvolutionError>
  {
    if attributes == [] then Success(([], p))
    else
      var first :- MutatedAttribute(attributes[0], ranges, d, p);
      Prefixed([first.0], MutatedAttributes(attributes[1..], ranges, d, first.1))
  }

  /** An attribute the mutation can handle: not a number without a range. */
  predicate Mutable(attribute: Attribute, ranges: map<string, Range>) {
    attribute.value.Number? ==> attribute.name in ranges
  }

  /** Mutating the attributes succeeds exactly when every numeric one has a range; then the names and the kinds
      of the values are kept, text is untouched, and one draw is taken per number or flag. */
  lemma MutatedAttributesSpec(attributes: seq<Attribute>, ranges: map<string, Range>, d: Draws, p: Position)
    ensures var r := MutatedAttributes(attributes, ranges, d, p);
      && (r.Success? <==> forall i :: 0 <= i < |attributes| ==> Mutable(attributes[i], ranges))
      && (r.Success? ==>
            && |r.value.0| == |attributes|
            && r.value.1.issued == p.issued
            && r.value.1.drawn == p.drawn + |Drawing(attributes)|
            && forall i :: 0 <= i < |attributes| ==>
                 && r.value.0[i].name == attributes[i].name
                 && (attributes[i].value.Text? <==> r.value.0[i].value.Text?)
                 && (attributes[i].value.Number? <==> r.value.0[i].value.Number?)
                 && (attributes[i].value.Text? ==> r.value.0[i] == attributes[i]))
  {
    MutatedAttributesSucceed(attributes, ranges, d, p);
    MutatedAttributesCount(attributes, ranges, d, p);
    MutatedAttributesEach(attributes, ranges, d, p);
  }

  lemma {:induction false} MutatedAttributesSucceed(attributes: seq<Attribute>, ranges: map<string, Range>, d: Draws, p: Position)
    ensures MutatedAttributes(attributes, ranges, d, p).Success? <==> forall i :: 0 <= i < |attributes| ==> Mutable(attributes[i], ranges)
  {
    if attributes != [] {
      var first := MutatedAttribute(attributes[0], ranges, d, p);
      if first.Success? {
        MutatedAttributesSucceed(attributes[1..], ranges, d, first.value.1);
        if MutatedAttributes(attributes[1..], ranges, d, first.value.1).Success? {
          forall i | 0 < i < |attributes| ensures attributes[i] == attributes[1..][i - 1] {
          }
        } else {
          var i :| 0 <= i < |attributes[1..]| && !Mutable(attributes[1..][i], ranges);
          assert !Mutable(attributes[i + 1], ranges);
        }
      }
    }
  }

  lemma {:induction false} MutatedAttributesCount(attributes: seq<Attribute>, ranges: map<string, Range>, d: Draws, p: Position)
    ensures var r := MutatedAttributes(attributes, ranges, d, p);
      r.Success? ==>
        && |r.value.0| == |attributes|
        && r.value.1.issued == p.issued
        && r.value.1.drawn == p.drawn + |Drawing(attributes)|
  {
    if attributes != [] {
      var first := MutatedAttribute(attributes[0], ranges, d, p);
      if first.Success? {
        MutatedAttributesCount(attributes[1..], ranges, d, first.value.1);
        assert Drawing(attributes) == Drawing([attributes[0]]) + Drawing(attributes[1..]) by {
          assert attributes == [attributes[0]] + attributes[1..];
          DrawingAppend([attributes[0]], attributes[1..]);
        }
      }
    }
  }

  lemma {:induction false} MutatedAttributesEach(attributes: seq<Attribute>, ranges: map<string, Range>, d: Draws, p: Position)
    ensures var r := MutatedAttributes(attributes, ranges, d, p);
      r.Success? ==>
        && |r.value.0| == |attributes|
        && forall i :: 0 <= i < |attributes| ==>
             && r.value.0[i].name == attributes[i].name
             && (attributes[i].value.Text? <==> r.value.0[i].value.Text?)
             && (attributes[i].value.Number? <==> r.value.0[i].value.Number?)
             && (attributes[i].value.Text? ==> r.value.0[i] == attributes[i])
  {
    if attributes != [] {
      var first := MutatedAttribute(attributes[0], ranges, d, p);
      var rest := if first.Success? then MutatedAttributes(attributes[1..], ranges, d, first.value.1) else Failure(MissingRange);
      if rest.Success? {
        MutatedAttributesEach(attributes[1..], ranges, d, first.value.1);
        var r := [first.value.0] + rest.value.0;
        assert MutatedAttributes(attributes, ranges, d, p) == Success((r, rest.value.1));
        forall i | 0 <= i < |attributes|
          ensures && r[i].name == attributes[i].name
                  && (attributes[i].value.Text? <==> r[i].value.Text?)
                  && (attributes[i].value.Number? <==> r[i].value.Number?)
                  && (attributes[i].value.Text? ==> r[i] == attributes[i])
        {
          if i > 0 {
            assert attributes[i] == attributes[1..][i - 1] && r[i] == rest.value.0[i - 1];
          }
        }
      }
    }
  }

  /** The attributes that take a draw: the numbers and the flags. */
  function Drawing(attributes: seq<Attribute>): (r: seq<Attribute>)
    ensures forall a :: a in r <==> a in attributes && !a.value.Text?
  {
    if attributes == [] then []
    else if attributes[0].value.Text? then Drawing(attributes[1..])
    else [attributes[0]] + Drawing(attributes[1..])
  }

  lemma {:induction false} DrawingAppend(a: seq<Attribute>, b: seq<Attribute>)
    ensures Drawing(a + b) == Drawing(a) + Drawing(b)
  {
    if a == [] {
      assert a + b == b;
    } else {
      assert (a + b)[1..] == a[1..] + b;
      DrawingAppend(a[1..], b);
    }
  }

  /** The ranges that apply to an ability: melee ones for melee abilities, projectile ones otherwise. */
  function RangesFor(ranges: Ranges, kind: string): map<string, Range> {
    if kind == "melee" then ranges.melee else ranges.projectile
  }

  function MutatedAbility(ability: Ability, ranges: Ranges, d: Draws, p: Position)
    : (r: Result<(Ability, Position), EvolutionError>)
    ensures r.Success? ==> r.value.0.kind == ability.kind
  {
    var m :- MutatedAttributes(ability.attributes, RangesFor(ranges, ability.kind), d, p);
    Success((Ability(ability.kind, m.0), m.1))
  }

  /** The abilities of a genome, mutated in order. */
  function MutatedAbilities(abilities: seq<Ability>, ranges: Ranges, d: Draws, p: Position)
    : Result<(seq<Ability>, Position), EvolutionError>
  {
    if abilities == [] then Success(([], p))
    else
      var first :- MutatedAbility(abilities[0], ranges, d, p);
      Prefixed([first.0], MutatedAbilities(abilities[1..], ranges, d, first.1))
  }

  /** An ability whose numeric attributes all have ranges for its kind. */
  predicate MutableAbility(ability: Ability, ranges: Ranges) {
    forall i :: 0 <= i < |ability.attributes| ==> Mutable(ability.attributes[i], RangesFor(ranges, ability.kind))
  }

  /** Mutating the abilities succeeds exactly when each is mutable; then their number and kinds are kept. */
  lemma {:induction false} MutatedAbilitiesSpec(abilities: seq<Ability>, ranges: Ranges, d: Draws, p: Position)
    ensures var r := MutatedAbilities(abilities, ranges, d, p);
      && (r.Success? <==> forall i :: 0 <= i < |abilities| ==> MutableAbility(abilities[i], ranges))
      && (r.Success? ==>
            && |r.value.0| == |abilities|
            && r.value.1.issued == p.issued
            && forall i :: 0 <= i < |abilities| ==> r.value.0[i].kind == abilities[i].kind)
  {
    if abilities != [] {
      var a := abilities[0];
      MutatedAttributesSpec(a.attributes, RangesFor(ranges, a.kind), d, p);
      var first := MutatedAbility(a, ranges, d, p);
      if first.Success? {
        MutatedAbilitiesSpec(abilities[1..], ranges, d, first.value.1);
        var rest := MutatedAbilities(abilities[1..], ranges, d, first.value.1);
        if rest.Success? {
          forall i | 0 <= i < |abilities| ensures MutableAbility(abilities[i], ranges) {
            if i > 0 {
              assert abilities[i] == abilities[1..][i - 1];
            }
          }
        } else {
          var i :| 0 <= i < |abilities[1..]| && !MutableAbility(abilities[1..][i], ranges);
          assert !MutableAbility(abilities[i + 1], ranges);
        }
      }
    }
  }

  /** The whole mutation of a genome before the final unseen step: radius, then move velocity, then
      every ability, in that order of draws. */
  function Mutated(g: Individual, ranges: Ranges, d: Draws, p: Position): Result<(Individual, Position), EvolutionError>
  {
    var radius := ScaledInt(g.radius, ranges.radius, Factor(d, p)) as real;
    var moveVelocity := ScaledInt(g.moveVelocity, ranges.moveVelocity, Factor(d, NextDraw(p))) as real;
    var abilities :- MutatedAbilities(g.abilities, ranges, d, NextDraw(NextDraw(p)));
    Success((g.(radius := radius, moveVelocity := moveVelocity, abilities := abilities.0), abilities.1))
  }

  /** Mutation keeps the id and the number and kinds of abilities, takes no uuid, and succeeds exactly when
      every ability is mutable; with integer, non-negative ranges containing them, radius and move velocity
      stay in range. */
  lemma MutatedSpec(g: Individual, ranges: Ranges, d: Draws, p: Position)
    ensures var r := Mutated(g, ranges, d, p);
      && (r.Success? <==> forall i :: 0 <= i < |g.abilities| ==> MutableAbility(g.abilities[i], ranges))
      && (r.Success? ==>
            && r.value.0.characterId == g.characterId
            && |r.value.0.abilities| == |g.abilities|
            && (forall i :: 0 <= i < |g.abilities| ==> r.value.0.abilities[i].kind == g.abilities[i].kind)
            && r.value.1.issued == p.issued
            && (IntegerRange(ranges.radius) && 0.0 <= ranges.radius.0 <= g.radius <= ranges.radius.1 ==>
                  ranges.radius.0 <= r.value.0.radius <= ranges.radius.1)
            && (IntegerRange(ranges.moveVelocity) && 0.0 <= ranges.moveVelocity.0 <= g.moveVelocity <= ranges.moveVelocity.1 ==>
                  ranges.moveVelocity.0 <= r.value.0.moveVelocity <= ranges.moveVelocity.1))
  {
    MutatedAbilitiesSpec(g.abilities, ranges, d, NextDraw(NextDraw(p)));
    FactorRange(d, p);
    FactorRange(d, NextDraw(p));
    if IntegerRange(ranges.radius) && 0.0 <= ranges.radius.0 <= g.radius <= ranges.radius.1 {
      ScaledIntInRange(g.radius, ranges.radius, Factor(d, p));
    }
    if IntegerRange(ranges.moveVelocity) && 0.0 <= ranges.moveVelocity.0 <= g.moveVelocity <= ranges.moveVelocity.1 {
      ScaledIntInRange(g.moveVelocity, ranges.moveVelocity, Factor(d, NextDraw(p)));
    }
  }

  predicate IntegerRange(range: Range) {
    range.0 == range.0.Floor as real && range.1 == range.1.Floor as real
  }

  /** A uniform factor is in [0.5, 1.5). */
  lemma FactorRange(d: Draws, p: Position)
    ensures 0.5 <= Factor(d, p) < 1.5
  {
    assert 0.0 <= d.unit(p.drawn) < 1.0;
  }

  // ---------------------------------------------------------------------------
  // Crossover

  /** A copy of the first genome with a fresh id and, at a random index below its number of abilities,
      the second genome's ability. No abilities in the first genome, or too few in the second, raise. */
  function Crossover(genome1: Individual, genome2: Individual, d: Draws, p: Position)
    : (r: Result<(Individual, Position), EvolutionError>)
  {
    if |genome1.abilities| == 0 then Failure(EmptyRange)
    else
      var swap := d.below(p.drawn, |genome1.abilities|);
      if |genome2.abilities| <= swap then Failure(MissingAbility)
      else
        var abilities := genome1.abilities[swap := genome2.abilities[swap]];
        Success((genome1.(abilities := abilities, characterId := d.uuid(p.issued)), Position(p.drawn + 1, p.issued + 1)))
  }

  /** The child equals the first parent except for the fresh id and one ability, taken from the second
      parent at the same index; parents with the same non-zero number of abilities always cross. */
  lemma CrossoverSpec(genome1: Individual, genome2: Individual, d: Draws, p: Position)
    ensures var r := Crossover(genome1, genome2, d, p);
      && (|genome1.abilities| == |genome2.abilities| > 0 ==> r.Success?)
      && (r.Success? ==>
            var child := r.value.0;
            && child.characterId == d.uuid(p.issued)
            && child.radius == genome1.radius && child.moveVelocity == genome1.moveVelocity
            && |child.abilities| == |genome1.abilities|
            && (exists j :: 0 <= j < |child.abilities| && j < |genome2.abilities|
                  && child.abilities[j] == genome2.abilities[j]
                  && forall i :: 0 <= i < |child.abilities| && i != j ==> child.abilities[i] == genome1.abilities[i])
            && r.value.1 == Position(p.drawn + 1, p.issued + 1))
  {
    if |genome1.abilities| > 0 {
      var swap := d.below(p.drawn, |genome1.abilities|);
      assert swap < |genome1.abilities|;
    }
  }

  // ---------------------------------------------------------------------------
  // Looking a member up

  /** The last member carrying the id, if any. */
  function LastWithId(id: CharacterId, population: seq<Individual>): Option<Individual>
  {
    if population == [] then None
    else if population[|population| - 1].characterId == id then Some(population[|population| - 1])
    else LastWithId(id, population[..|population| - 1])
  }

  /** The lookup finds nothing exactly when no member carries the id, and otherwise a member carrying
      it after which no later member does. */
  lemma {:induction false} LastWithIdSpec(id: CharacterId, population: seq<Individual>)
    ensures var r := LastWithId(id, population);
      && (r.None? <==> forall i :: 0 <= i < |population| ==> population[i].characterId != id)
      && (r.Some? ==> exists i ::
            && 0 <= i < |population| && population[i] == r.value && r.value.characterId == id
            && forall j :: i < j < |population| ==> population[j].characterId != id)
  {
    if population != [] {
      var n := |population|;
      var front := population[..n - 1];
      LastWithIdSpec(id, front);
      assert forall i :: 0 <= i < n - 1 ==> front[i] == population[i];
      if population[n - 1].characterId != id {
        var r := LastWithId(id, front);
        if r.Some? {
          var i :| 0 <= i < n - 1 && front[i] == r.value && r.value.characterId == id
                   && forall j :: i < j < n - 1 ==> front[j].characterId != id;
          assert population[i] == r.value;
        }
      }
    }
  }

  /** Every member of the population that carries the id, and only those, in order. */
  ghost function WithId(id: CharacterId, population: seq<Individual>): seq<Individual>
  {
    if population == [] then []
    else
      var last := population[|population| - 1];
      WithId(id, population[..|population| - 1]) + if last.characterId == id then [last] else []
  }

  /** The member found is the last of those carrying the id. */
  lemma {:induction false} LastWithIdIsLast(id: CharacterId, population: seq<Individual>)
    ensures var all := WithId(id, population);
      LastWithId(id, population) == if all == [] then None else Some(all[|all| - 1])
  {
    if population != [] {
      LastWithIdIsLast(id, population[..|population| - 1]);
    }
  }

  lemma PrefixedNone<T>(r: Result<(seq<T>, Position), EvolutionError>)
    ensures Prefixed([], r) == r
  {
    if r.Success? {
      assert [] + r.value.0 == r.value.0;
    }
  }

  lemma PrefixedTwice<T>(done: seq<T>, x: T, rest: Result<(seq<T>, Position), EvolutionError>)
    ensures Prefixed(done, Prefixed([x], rest)) == Prefixed(done + [x], rest)
  {
    if rest.Success? {
      assert done + ([x] + rest.value.0) == (done + [x]) + rest.value.0;
    }
  }


  // ---------------------------------------------------------------------------
  // Ranking

  /** Python's order on strings: lexicographic by code point. */
  predicate StrLe(a: string, b: string)
    decreases |a|
  {
    a == [] || (b != [] && (a[0] < b[0] || (a[0] == b[0] && StrLe(a[1..], b[1..]))))
  }

  lemma {:induction false} StrLeTotal(a: string, b: string)
    ensures StrLe(a, b) || StrLe(b, a)
    decreases |a|
  {
    if a != [] && b != [] && a[0] == b[0] {
      StrLeTotal(a[1..], b[1..]);
    }
  }

  lemma {:induction false} StrLeTransitive(a: string, b: string, c: string)
    requires StrLe(a, b) && StrLe(b, c)
    ensures StrLe(a, c)
    decreases |a|
  {
    if a != [] && b != [] && c != [] && a[0] == b[0] && b[0] == c[0] {
      StrLeTransitive(a[1..], b[1..], c[1..]);
    }
  }

  /** The order of `(fitness, id)` tuples. */
  function ByFitnessThenId(): ((real, CharacterId), (real, CharacterId)) -> bool
  {
    (x: (real, CharacterId), y: (real, CharacterId)) => x.0 < y.0 || (x.0 == y.0 && StrLe(x.1, y.1))
  }

  lemma ByFitnessThenIdTotal()
    ensures TotalPreorder(ByFitnessThenId())
  {
    forall x: (real, CharacterId), y: (real, CharacterId)
      ensures ByFitnessThenId()(x, y) || ByFitnessThenId()(y, x)
    {
      StrLeTotal(x.1, y.1);
    }
    forall x: (real, CharacterId), y: (real, CharacterId), z: (real, CharacterId)
      | ByFitnessThenId()(x, y) && ByFitnessThenId()(y, z)
      ensures ByFitnessThenId()(x, z)
    {
      if x.0 == y.0 == z.0 {
        StrLeTransitive(x.1, y.1, z.1);
      }
    }
  }

  /** `sorted((value, key) for (key, value) in fitnesses.items())`. */
  function Ranked(fitnesses: Dict<CharacterId, real>): seq<(real, CharacterId)>
  {
    SortBy(seq(|fitnesses|, i requires 0 <= i < |fitnesses| => (fitnesses[i].1, fitnesses[i].0)), ByFitnessThenId())
  }

  /** The ranking holds every (fitness, id) entry once, in increasing order of fitness. */
  lemma RankedSpec(fitnesses: Dict<CharacterId, real>)
    ensures var ranked := Ranked(fitnesses);
      && multiset(ranked) == multiset(seq(|fitnesses|, i requires 0 <= i < |fitnesses| => (fitnesses[i].1, fitnesses[i].0)))
      && forall i, j :: 0 <= i < j < |ranked| ==> ranked[i].0 <= ranked[j].0
  {
    var items := seq(|fitnesses|, i requires 0 <= i < |fitnesses| => (fitnesses[i].1, fitnesses[i].0));
    ByFitnessThenIdTotal();
    SortBySorted(items, ByFitnessThenId());
    var ranked := Ranked(fitnesses);
    forall i, j | 0 <= i < j < |ranked| ensures ranked[i].0 <= ranked[j].0 {
      assert ByFitnessThenId()(ranked[i], ranked[j]);
    }
  }

  // ---------------------------------------------------------------------------
  // One generation

  /** `max(floor(population_size * 0.2), 2)`. */
  function SurvivorCount(populationSize: nat): nat {
    Max(populationSize / 5, 2)
  }

  /** The entry ranked i-th from the top (i from 0). */
  function Best(ranked: seq<(real, CharacterId)>, i: nat): (real, CharacterId)
    requires i < |ranked|
  {
    ranked[|ranked| - 1 - i]
  }

  /** The members carrying the s best-ranked ids, best first; fewer ranked entries than s, or an id no
      member carries, raise. */
  function Survivors(population: seq<Individual>, ranked: seq<(real, CharacterId)>, s: nat)
    : Result<seq<Individual>, EvolutionError>
  {
    if |ranked| < s then Failure(TooFewRanked) else SurvivorsFrom(population, ranked, 0, s)
  }

  /** Survival succeeds exactly when there are s ranked entries and a member carries each of the s best ids;
      the survivors are then those members, best first. */
  lemma SurvivorsSpec(population: seq<Individual>, ranked: seq<(real, CharacterId)>, s: nat)
    ensures var r := Survivors(population, ranked, s);
      && (r.Success? <==> s <= |ranked| && forall j :: 0 <= j < s ==> LastWithId(Best(ranked, j).1, population).Some?)
      && (r.Success? ==>
            && |r.value| == s
            && forall j :: 0 <= j < s ==> LastWithId(Best(ranked, j).1, population) == Some(r.value[j]))
  {
    if s <= |ranked| {
      SurvivorsFromSpec(population, ranked, 0, s);
    }
  }

  /** The members carrying the best-ranked ids from the i-th to the (s-1)-th. */
  function SurvivorsFrom(population: seq<Individual>, ranked: seq<(real, CharacterId)>, i: nat, s: nat)
    : Result<seq<Individual>, EvolutionError>
    requires s <= |ranked|
    decreases s - i
  {
    if s <= i then Success([])
    else
      var found := LastWithId(Best(ranked, i).1, population);
      if found.None? then Failure(MissingCharacter)
      else
        var rest :- SurvivorsFrom(population, ranked, i + 1, s);
        Success([found.value] + rest)
  }

  /** The survivors from the i-th on exist exactly when each of those ids is carried, and are then the
      last members carrying them, in rank order; otherwise a character is missing. */
  lemma {:induction false} SurvivorsFromSpec(population: seq<Individual>, ranked: seq<(real, CharacterId)>, i: nat, s: nat)
    requires s <= |ranked|
    ensures var r := SurvivorsFrom(population, ranked, i, s);
      && (r.Success? <==> forall j :: i <= j < s ==> LastWithId(Best(ranked, j).1, population).Some?)
      && (r.Failure? ==> r.error == MissingCharacter)
      && (r.Success? ==>
            && |r.value| == Max(s - i, 0)
            && forall j :: i <= j < s ==> LastWithId(Best(ranked, j).1, population) == Some(r.value[j - i]))
    decreases s - i
  {
    if i < s && LastWithId(Best(ranked, i).1, population).Some? {
      SurvivorsFromSpec(population, ranked, i + 1, s);
      var rest := SurvivorsFrom(population, ranked, i + 1, s);
      if rest.Success? {
        var r := [LastWithId(Best(ranked, i).1, population).value] + rest.value;
        assert SurvivorsFrom(population, ranked, i, s) == Success(r);
        forall j | i < j < s ensures LastWithId(Best(ranked, j).1, population) == Some(r[j - i]) {
          assert r[j - i] == rest.value[j - (i + 1)];
        }
      }
    }
  }

  /** Survivors come best first, each carrying its ranked id, and no entry left out is ranked above a survivor. */
  lemma SurvivorsAreFittest(fitnesses: Dict<CharacterId, real>, population: seq<Individual>, s: nat)
    requires Survivors(population, Ranked(fitnesses), s).Success?
    ensures var ranked := Ranked(fitnesses);
      var survivors := Survivors(population, ranked, s).value;
      && |survivors| == s
      && (forall i :: 0 <= i < s ==> survivors[i].characterId == Best(ranked, i).1)
      && (forall i, j :: 0 <= i < j < s ==> Best(ranked, i).0 >= Best(ranked, j).0)
      && (forall i, k :: 0 <= i < s && 0 <= k < |ranked| - s ==> Best(ranked, i).0 >= ranked[k].0)
  {
    RankedSpec(fitnesses);
    var ranked := Ranked(fitnesses);
    SurvivorsSpec(population, ranked, s);
    forall i | 0 <= i < s ensures Survivors(population, ranked, s).value[i].characterId == Best(ranked, i).1 {
      LastWithIdSpec(Best(ranked, i).1, population);
    }
  }

  /** One child per pair, in order; each crossover takes one draw and one uuid. */
  function CrossAll(pairs: seq<(Individual, Individual)>, d: Draws, p: Position): Result<(seq<Individual>, Position), EvolutionError>
  {
    if pairs == [] then Success(([], p))
    else
      var child :- Crossover(pairs[0].0, pairs[0].1, d, p);
      Prefixed([child.0], CrossAll(pairs[1..], d, child.1))
  }

  /** The t-th pair is crossed with the t-th draw and uuid after the start, and all must succeed. */
  lemma CrossAllSpec(pairs: seq<(Individual, Individual)>, d: Draws, p: Position)
    ensures var r := CrossAll(pairs, d, p);
      && (r.Success? <==> forall t :: 0 <= t < |pairs| ==> Crossover(pairs[t].0, pairs[t].1, d, Position(p.drawn + t, p.issued + t)).Success?)
      && (r.Success? ==>
            && |r.value.0| == |pairs|
            && r.value.1 == Position(p.drawn + |pairs|, p.issued + |pairs|)
            && forall t :: 0 <= t < |pairs| ==>
                 r.value.0[t] == Crossover(pairs[t].0, pairs[t].1, d, Position(p.drawn + t, p.issued + t)).value.0)
  {
    CrossAllSucceeds(pairs, d, p);
    CrossAllChildren(pairs, d, p);
  }

  lemma {:induction false} CrossAllSucceeds(pairs: seq<(Individual, Individual)>, d: Draws, p: Position)
    ensures CrossAll(pairs, d, p).Success?
      <==> forall t :: 0 <= t < |pairs| ==> Crossover(pairs[t].0, pairs[t].1, d, Position(p.drawn + t, p.issued + t)).Success?
  {
    if pairs != [] {
      var first := Crossover(pairs[0].0, pairs[0].1, d, p);
      assert p == Position(p.drawn + 0, p.issued + 0);
      if first.Success? {
        var next := Position(p.drawn + 1, p.issued + 1);
        CrossAllSucceeds(pairs[1..], d, next);
        forall t | 0 < t < |pairs|
          ensures pairs[t] == pairs[1..][t - 1]
          ensures Position(p.drawn + t, p.issued + t) == Position(next.drawn + (t - 1), next.issued + (t - 1))
        {
        }
      }
    }
  }

  lemma CrossAllChildren(pairs: seq<(Individual, Individual)>, d: Draws, p: Position)
    ensures var r := CrossAll(pairs, d, p);
      r.Success? ==>
        && |r.value.0| == |pairs|
        && r.value.1 == Position(p.drawn + |pairs|, p.issued + |pairs|)
        && forall t :: 0 <= t < |pairs| ==>
             && Crossover(pairs[t].0, pairs[t].1, d, Position(p.drawn + t, p.issued + t)).Success?
             && r.value.0[t] == Crossover(pairs[t].0, pairs[t].1, d, Position(p.drawn + t, p.issued + t)).value.0
  {
    CrossAllEnd(pairs, d, p);
    if CrossAll(pairs, d, p).Success? {
      forall t | 0 <= t < |pairs|
        ensures Crossover(pairs[t].0, pairs[t].1, d, Position(p.drawn + t, p.issued + t)).Success?
        ensures CrossAll(pairs, d, p).value.0[t] == Crossover(pairs[t].0, pairs[t].1, d, Position(p.drawn + t, p.issued + t)).value.0
      {
        CrossAllChild(pairs, d, p, t);
      }
    }
  }

  /** All pairs crossed: one child each, and as many draws and uuids taken. */
  lemma {:induction false} CrossAllEnd(pairs: seq<(Individual, Individual)>, d: Draws, p: Position)
    ensures var r := CrossAll(pairs, d, p);
      r.Success? ==> |r.value.0| == |pairs| && r.value.1 == Position(p.drawn + |pairs|, p.issued + |pairs|)
  {
    if pairs != [] {
      var first := Crossover(pairs[0].0, pairs[0].1, d, p);
      if first.Success? {
        CrossAllEnd(pairs[1..], d, first.value.1);
      }
    }
  }

  /** The t-th child is the t-th pair crossed at the t-th draw and uuid. */
  lemma {:induction false} CrossAllChild(pairs: seq<(Individual, Individual)>, d: Draws, p: Position, t: nat)
    requires CrossAll(pairs, d, p).Success? && t < |pairs|
    ensures |CrossAll(pairs, d, p).value.0| == |pairs|
    ensures Crossover(pairs[t].0, pairs[t].1, d, Position(p.drawn + t, p.issued + t)).Success?
    ensures CrossAll(pairs, d, p).value.0[t] == Crossover(pairs[t].0, pairs[t].1, d, Position(p.drawn + t, p.issued + t)).value.0
  {
    CrossAllEnd(pairs, d, p);
    var first := Crossover(pairs[0].0, pairs[0].1, d, p);
    var rest := CrossAll(pairs[1..], d, first.value.1);
    assert CrossAll(pairs, d, p).value.0 == [first.value.0] + rest.value.0;
    if t == 0 {
      assert p == Position(p.drawn + 0, p.issued + 0);
    } else {
      var next := Position(p.drawn + 1, p.issued + 1);
      CrossAllChild(pairs[1..], d, next, t - 1);
      assert pairs[1..][t - 1] == pairs[t];
      assert Position(next.drawn + (t - 1), next.issued + (t - 1)) == Position(p.drawn + t, p.issued + t);
    }
  }

  lemma {:induction false} CrossAllLength(pairs: seq<(Individual, Individual)>, d: Draws, p: Position)
    requires CrossAll(pairs, d, p).Success?
    ensures |CrossAll(pairs, d, p).value.0| == |pairs|
  {
    CrossAllSpec(pairs, d, p);
  }

  /** A genome whose every ability is mutable. */
  predicate MutableGenome(g: Individual, ranges: Ranges) {
    forall i :: 0 <= i < |g.abilities| ==> MutableAbility(g.abilities[i], ranges)
  }

  /** One clone: a draw picks the child, the following draws mutate a copy of it, and `change` finishes it. */
  function CloneOf(children: seq<Individual>, ranges: Ranges, d: Draws, p: Position, change: Individual -> Individual)
    : Result<(Individual, Position), EvolutionError>
  {
    if children == [] then Failure(EmptyRange)
    else
      var m :- Mutated(children[d.below(p.drawn, |children|)], ranges, d, NextDraw(p));
      Success((change(m.0), m.1))
  }

  /** `count` clones of randomly chosen children, each mutated and then changed by `change`. */
  function FillUp(children: seq<Individual>, count: nat, ranges: Ranges, d: Draws, p: Position, change: Individual -> Individual)
    : Result<(seq<Individual>, Position), EvolutionError>
    decreases count
  {
    if count == 0 then Success(([], p))
    else
      var clone :- CloneOf(children, ranges, d, p, change);
      Prefixed([clone.0], FillUp(children, count - 1, ranges, d, clone.1, change))
  }

  /** The first clone of a fill-up, then the rest from where it left the draws. */
  lemma FillUpStep(children: seq<Individual>, count: nat, ranges: Ranges, d: Draws, p: Position, change: Individual -> Individual)
    requires 0 < count
    ensures var clone := CloneOf(children, ranges, d, p, change);
      FillUp(children, count, ranges, d, p, change)
        == if clone.Failure? then Failure(clone.error)
           else Prefixed([clone.value.0], FillUp(children, count - 1, ranges, d, clone.value.1, change))
  {
  }

  /** Filling up gives `count` clones and keeps the uuid counter; it succeeds whenever there is a child and
      every child is mutable. */
  lemma {:induction false} FillUpShape(children: seq<Individual>, count: nat, ranges: Ranges, d: Draws, p: Position,
                                       change: Individual -> Individual)
    ensures var r := FillUp(children, count, ranges, d, p, change);
      && ((count == 0 || (children != [] && forall k :: 0 <= k < |children| ==> MutableGenome(children[k], ranges))) ==> r.Success?)
      && (r.Success? ==> |r.value.0| == count && r.value.1.issued == p.issued)
    decreases count
  {
    if count != 0 && children != [] {
      var k := d.below(p.drawn, |children|);
      var q := NextDraw(p);
      MutatedSpec(children[k], ranges, d, q);
      var clone := CloneOf(children, ranges, d, p, change);
      if clone.Success? {
        FillUpShape(children, count - 1, ranges, d, clone.value.1, change);
      }
    }
  }

  /** `x` is `change` applied to a successful mutation of one of the children, from some position. */
  ghost predicate IsChangedMutation(x: Individual, children: seq<Individual>, ranges: Ranges, d: Draws,
                                    change: Individual -> Individual)
  {
    exists k, q :: 0 <= k < |children| && Mutated(children[k], ranges, d, q).Success?
      && x == change(Mutated(children[k], ranges, d, q).value.0)
  }

  /** Each clone is `change` applied to a mutation of some child. */
  lemma {:induction false} FillUpClones(children: seq<Individual>, count: nat, ranges: Ranges, d: Draws, p: Position,
                                        change: Individual -> Individual, j: nat)
    requires FillUp(children, count, ranges, d, p, change).Success?
    requires j < |FillUp(children, count, ranges, d, p, change).value.0|
    ensures IsChangedMutation(FillUp(children, count, ranges, d, p, change).value.0[j], children, ranges, d, change)
    decreases count
  {
    FillUpShape(children, count, ranges, d, p, change);
    var k := d.below(p.drawn, |children|);
    var q := NextDraw(p);
    var clone := CloneOf(children, ranges, d, p, change).value;
    var rest := FillUp(children, count - 1, ranges, d, clone.1, change).value.0;
    var r := FillUp(children, count, ranges, d, p, change).value.0;
    assert r == [clone.0] + rest;
    if j > 0 {
      FillUpClones(children, count - 1, ranges, d, clone.1, change, j - 1);
      assert r[j] == rest[j - 1];
    } else {
      assert r[0] == change(Mutated(children[k], ranges, d, q).value.0);
    }
  }

  /** One generation of `evolve`: the survivors, their children, and mutated clones of children up to the
      population size. */
  function NextGenerationOf(population: seq<Individual>, ranked: seq<(real, CharacterId)>, populationSize: nat,
                            ranges: Ranges, d: Draws, p: Position, change: Individual -> Individual)
    : Result<(seq<Individual>, Position), EvolutionError>
  {
    var survivors :- Survivors(population, ranked, SurvivorCount(populationSize));
    var children :- CrossAll(Pairs(survivors), d, p);
    var current := survivors + children.0;
    var clones :- FillUp(children.0, Max(populationSize - |current|, 0), ranges, d, children.1, change);
    Success((current + clones.0, clones.1))
  }

  /** A successful generation is its three parts, each of them successful, one after the other. */
  lemma NextGenerationParts(population: seq<Individual>, ranked: seq<(real, CharacterId)>, populationSize: nat,
                            ranges: Ranges, d: Draws, p: Position, change: Individual -> Individual)
    requires NextGenerationOf(population, ranked, populationSize, ranges, d, p, change).Success?
    ensures Survivors(population, ranked, SurvivorCount(populationSize)).Success?
    ensures var survivors := Survivors(population, ranked, SurvivorCount(populationSize)).value;
      && CrossAll(Pairs(survivors), d, p).Success?
      && var children := CrossAll(Pairs(survivors), d, p).value;
      && var count := Max(populationSize - |survivors + children.0|, 0);
      && FillUp(children.0, count, ranges, d, children.1, change).Success?
      && NextGenerationOf(population, ranked, populationSize, ranges, d, p, change).value.0
        == survivors + children.0 + FillUp(children.0, count, ranges, d, children.1, change).value.0
  {
  }

  /** A generation holds the s survivors, best first, then one child per pair of survivors, then clones;
      it has max(n, s + s(s-1)/2) members, so exactly n as long as s + s(s-1)/2 <= n. */
  lemma NextGenerationShape(population: seq<Individual>, ranked: seq<(real, CharacterId)>, populationSize: nat,
                            ranges: Ranges, d: Draws, p: Position, change: Individual -> Individual)
    requires NextGenerationOf(population, ranked, populationSize, ranges, d, p, change).Success?
    ensures var s := SurvivorCount(populationSize);
      var next := NextGenerationOf(population, ranked, populationSize, ranges, d, p, change).value.0;
      var survivors := Survivors(population, ranked, s).value;
      && 2 * |Pairs(survivors)| == s * (s - 1)
      && |next| == Max(populationSize, s + |Pairs(survivors)|)
      && next[..s] == survivors
      && |next| == GenerationSize(populationSize)
  {
    NextGenerationParts(population, ranked, populationSize, ranges, d, p, change);
    var s := SurvivorCount(populationSize);
    var survivors := Survivors(population, ranked, s).value;
    var pairs := Pairs(survivors);
    var children := CrossAll(pairs, d, p).value;
    var count := Max(populationSize - |survivors + children.0|, 0);
    var clones := FillUp(children.0, count, ranges, d, children.1, change).value.0;
    assert |survivors| == s by {
      SurvivorsSpec(population, ranked, s);
    }
    assert 2 * |pairs| == s * (s - 1) by {
      PairsLength(survivors);
    }
    assert |children.0| == |pairs| by {
      CrossAllLength(pairs, d, p);
    }
    assert |clones| == count by {
      FillUpShape(children.0, count, ranges, d, children.1, change);
    }
    GenerationLayout(survivors, children.0, clones, populationSize);
    var next := NextGenerationOf(population, ranked, populationSize, ranges, d, p, change).value.0;
    assert next == survivors + children.0 + clones;
    assert |next| == Max(populationSize, s + |pairs|);
    SizeFromPairs(populationSize, |pairs|);
  }

  /** Survivors, then children, then enough clones to reach n: max(n, survivors + children) members, the
      survivors first. */
  lemma GenerationLayout(survivors: seq<Individual>, children: seq<Individual>, clones: seq<Individual>, n: nat)
    requires |clones| == Max(n - |survivors + children|, 0)
    ensures |survivors + children + clones| == Max(n, |survivors| + |children|)
    ensures (survivors + children + clones)[..|survivors|] == survivors
  {
    ConcatFront(survivors, children, clones);
  }

  /** After the survivors, the t-th member of a generation is the child of the t-th pair of survivors,
      crossed with the t-th draw and uuid. */
  lemma NextGenerationChild(population: seq<Individual>, ranked: seq<(real, CharacterId)>, populationSize: nat,
                            ranges: Ranges, d: Draws, p: Position, change: Individual -> Individual, t: nat)
    requires NextGenerationOf(population, ranked, populationSize, ranges, d, p, change).Success?
    requires t < |Pairs(Survivors(population, ranked, SurvivorCount(populationSize)).value)|
    ensures var s := SurvivorCount(populationSize);
      var next := NextGenerationOf(population, ranked, populationSize, ranges, d, p, change).value.0;
      var pair := Pairs(Survivors(population, ranked, s).value)[t];
      && s + t < |next|
      && Crossover(pair.0, pair.1, d, Position(p.drawn + t, p.issued + t)).Success?
      && next[s + t] == Crossover(pair.0, pair.1, d, Position(p.drawn + t, p.issued + t)).value.0
  {
    NextGenerationParts(population, ranked, populationSize, ranges, d, p, change);
    var s := SurvivorCount(populationSize);
    var survivors := Survivors(population, ranked, s).value;
    var pairs := Pairs(survivors);
    var children := CrossAll(pairs, d, p).value;
    var count := Max(populationSize - |survivors + children.0|, 0);
    var clones := FillUp(children.0, count, ranges, d, children.1, change).value.0;
    assert |survivors| == s by {
      SurvivorsSpec(population, ranked, s);
    }
    CrossAllChild(pairs, d, p, t);
    ConcatAt(survivors, children.0, clones, t);
  }

  /** Survivors that all carry the same non-zero number of abilities, every one mutable, always give a
      next generation. */
  lemma NextGenerationSucceeds(population: seq<Individual>, ranked: seq<(real, CharacterId)>, populationSize: nat,
                               ranges: Ranges, d: Draws, p: Position, change: Individual -> Individual, m: nat)
    requires Survivors(population, ranked, SurvivorCount(populationSize)).Success?
    requires var survivors := Survivors(population, ranked, SurvivorCount(populationSize)).value;
      0 < m && forall i :: 0 <= i < |survivors| ==> |survivors[i].abilities| == m && MutableGenome(survivors[i], ranges)
    ensures NextGenerationOf(population, ranked, populationSize, ranges, d, p, change).Success?
  {
    SurvivorsSpec(population, ranked, SurvivorCount(populationSize));
    var survivors := Survivors(population, ranked, SurvivorCount(populationSize)).value;
    var pairs := Pairs(survivors);
    PairsLength(survivors);
    CrossAllSpec(pairs, d, p);
    forall t | 0 <= t < |pairs|
      ensures |pairs[t].0.abilities| == m && MutableGenome(pairs[t].0, ranges)
      ensures |pairs[t].1.abilities| == m && MutableGenome(pairs[t].1, ranges)
    {
      assert pairs[t] in pairs;
      PairsMembers(survivors, pairs[t].0, pairs[t].1);
    }
    forall t | 0 <= t < |pairs|
      ensures Crossover(pairs[t].0, pairs[t].1, d, Position(p.drawn + t, p.issued + t)).Success?
    {
      CrossoverSpec(pairs[t].0, pairs[t].1, d, Position(p.drawn + t, p.issued + t));
    }
    var children := CrossAll(pairs, d, p).value;
    forall k | 0 <= k < |children.0| ensures MutableGenome(children.0[k], ranges) {
      var q := Position(p.drawn + k, p.issued + k);
      CrossoverSpec(pairs[k].0, pairs[k].1, d, q);
      var child := children.0[k];
      forall i | 0 <= i < |child.abilities| ensures MutableAbility(child.abilities[i], ranges) {
        assert child.abilities[i] == pairs[k].0.abilities[i] || child.abilities[i] == pairs[k].1.abilities[i];
      }
    }
    var current := survivors + children.0;
    FillUpShape(children.0, Max(populationSize - |current|, 0), ranges, d, children.1, change);
  }

  // ---------------------------------------------------------------------------
  // The whole run

  /** The number of generations `evolve` runs. */
  const EvolveGenerations: nat := 3

  /** The generations of `evolve`: each one ranks the population by the fitness `evaluate` gives it. Every
      generation after the first has `GenerationSize` members, whatever the population started with. */
  function Generations(population: seq<Individual>, populationSize: nat, g: nat, ranges: Ranges, d: Draws, p: Position,
                       evaluate: seq<Individual> -> Dict<CharacterId, real>, change: Individual -> Individual)
    : (r: Result<(seq<Individual>, Position), EvolutionError>)
    ensures r.Success? ==> |r.value.0| == if g == 0 then |population| else GenerationSize(populationSize)
    decreases g
  {
    if g == 0 then Success((population, p))
    else
      var ranked := Ranked(evaluate(population));
      var next :- NextGenerationOf(population, ranked, populationSize, ranges, d, p, change);
      NextGenerationShape(population, ranked, populationSize, ranges, d, p, change);
      Generations(next.0, populationSize, g - 1, ranges, d, next.1, evaluate, change)
  }

  /** Unfolding `Generations` once: a failing first generation fails the run. */
  lemma GenerationsFail(population: seq<Individual>, populationSize: nat, g: nat, ranges: Ranges, d: Draws, p: Position,
                        evaluate: seq<Individual> -> Dict<CharacterId, real>, change: Individual -> Individual)
    requires 0 < g
    requires NextGenerationOf(population, Ranked(evaluate(population)), populationSize, ranges, d, p, change).Failure?
    ensures Generations(population, populationSize, g, ranges, d, p, evaluate, change).Failure?
  {
  }

  /** Unfolding `Generations` once: a successful first generation leaves g - 1 generations to run. */
  lemma GenerationsAdvance(population: seq<Individual>, populationSize: nat, g: nat, ranges: Ranges, d: Draws, p: Position,
                           evaluate: seq<Individual> -> Dict<CharacterId, real>, change: Individual -> Individual,
                           next: seq<Individual>, q: Position)
    requires 0 < g
    requires NextGenerationOf(population, Ranked(evaluate(population)), populationSize, ranges, d, p, change) == Success((next, q))
    ensures Generations(population, populationSize, g, ranges, d, p, evaluate, change)
      == Generations(next, populationSize, g - 1, ranges, d, q, evaluate, change)
  {
  }

  /** The size of every generation after the first: max(n, s + s(s-1)/2) with s = max(floor(n/5), 2). */
  function GenerationSize(populationSize: nat): nat
  {
    var s := SurvivorCount(populationSize);
    Max(populationSize, s + s * (s - 1) / 2)
  }

  /** A generation keeps the population size exactly when 3 <= n < 50: below 3 the two survivors and
      their child already outnumber it, and from 50 on the survivors and their children do. */
  lemma PopulationGrows(populationSize: nat)
    ensures GenerationSize(populationSize) == populationSize <==> 3 <= populationSize < 50
  {
    var n := populationSize;
    var s := SurvivorCount(n);
    if n < 10 {
      assert s == 2;
    } else if n < 50 {
      assert s == n / 5 && 5 * s <= n;
      FewSurvivorsFit(s);
    } else {
      assert s == n / 5 && n < 5 * s + 5;
      ManySurvivorsOverflow(s);
    }
  }

  /** Up to nine survivors and their children fit in five members per survivor. */
  lemma FewSurvivorsFit(s: int)
    requires 2 <= s <= 9
    ensures s + s * (s - 1) / 2 <= 5 * s
  {
    assert s * (s - 1) <= s * 8;
  }

  /** From ten survivors on, they and their children outnumber five members per survivor plus four. */
  lemma ManySurvivorsOverflow(s: int)
    requires 10 <= s
    ensures s + s * (s - 1) / 2 >= 5 * s + 5
  {
    assert (s - 10) * (s + 1) >= 0;
    assert s * (s - 1) == (s - 10) * (s + 1) + 8 * s + 10;
  }

  /** s + |pairs| where 2·|pairs| = s(s-1) is s + s(s-1)/2. */
  lemma SizeFromPairs(populationSize: nat, pairs: nat)
    requires var s := SurvivorCount(populationSize); 2 * pairs == s * (s - 1)
    ensures Max(populationSize, SurvivorCount(populationSize) + pairs) == GenerationSize(populationSize)
  {
  }

  /** A ranked character as pushed at the end of a run. */
  datatype RankedCharacter = RankedCharacter(characterId: CharacterId, fitness: real, characterConfig: Option<Individual>)

  /** The final ranking, in increasing order of fitness, each entry with the last member carrying its id. */
  function Report(ranked: seq<(real, CharacterId)>, population: seq<Individual>): (r: seq<RankedCharacter>)
    ensures |r| == |ranked|
    ensures forall i :: 0 <= i < |ranked| ==>
      r[i].characterId == ranked[i].1 && r[i].fitness == ranked[i].0 && r[i].characterConfig == LastWithId(ranked[i].1, population)
  {
    seq(|ranked|, i requires 0 <= i < |ranked| => RankedCharacter(ranked[i].1, ranked[i].0, LastWithId(ranked[i].1, population)))
  }

  /** The report of a population ranked by its fitnesses: fitness never decreases along it, it holds each
      (fitness, id) entry of the evaluation once, and an entry has no genome exactly when no member carries
      its id, and otherwise has the last member carrying it. */
  lemma ReportSpec(fitnesses: Dict<CharacterId, real>, population: seq<Individual>)
    ensures var r := Report(Ranked(fitnesses), population);
      && |r| == |fitnesses|
      && (forall i, j :: 0 <= i < j < |r| ==> r[i].fitness <= r[j].fitness)
      && multiset(seq(|r|, i requires 0 <= i < |r| => (r[i].fitness, r[i].characterId)))
        == multiset(seq(|fitnesses|, i requires 0 <= i < |fitnesses| => (fitnesses[i].1, fitnesses[i].0)))
      && forall i :: 0 <= i < |r| ==>
        && (r[i].characterConfig.None? <==> forall k :: 0 <= k < |population| ==> population[k].characterId != r[i].characterId)
        && (r[i].characterConfig.Some? ==> exists k ::
              && 0 <= k < |population| && population[k] == r[i].characterConfig.value
              && r[i].characterConfig.value.characterId == r[i].characterId
              && forall j :: k < j < |population| ==> population[j].characterId != r[i].characterId)
  {
    var ranked := Ranked(fitnesses);
    var r := Report(ranked, population);
    RankedSpec(fitnesses);
    assert seq(|r|, i requires 0 <= i < |r| => (r[i].fitness, r[i].characterId)) == ranked;
    forall i | 0 <= i < |r|
      ensures r[i].characterConfig == LastWithId(r[i].characterId, population)
      ensures var c := LastWithId(r[i].characterId, population);
        && (c.None? <==> forall k :: 0 <= k < |population| ==> population[k].characterId != r[i].characterId)
        && (c.Some? ==> exists k ::
              && 0 <= k < |population| && population[k] == c.value && c.value.characterId == r[i].characterId
              && forall j :: k < j < |population| ==> population[j].characterId != r[i].characterId)
    {
      LastWithIdSpec(r[i].characterId, population);
    }
  }

  // ---------------------------------------------------------------------------
  // The algorithm's state and operations

  /** The operations of the legacy algorithm over the ranges read from the configuration files. */
  class Evolution {
    const ranges: Ranges

    constructor (ranges: Ranges)
      ensures this.ranges == ranges
    {
      this.ranges := ranges;
    }

    /** Scales the radius by a factor drawn from [0.5, 1.5), clamped on one side, and truncates it. */
    method MutateRadius(genome: Genome, rng: RandomSource)
      modifies genome, rng
      ensures genome.Value() == old(genome.Value()).(radius := ScaledInt(old(genome.radius), ranges.radius, Factor(rng.draws, old(rng.At()))) as real)
      ensures rng.At() == NextDraw(old(rng.At()))
    {
      var radius := genome.radius;
      var factor := rng.Uniform(0.5, 1.5);
      assert factor == Factor(rng.draws, old(rng.At()));
      var newRadius;
      if factor > 1.0 {
        newRadius := Trunc(RealMin(factor * radius, ranges.radius.1));
      } else {
        newRadius := Trunc(RealMax(factor * radius, ranges.radius.0));
      }
      ScaledIntCases(radius, ranges.radius, factor);
      genome.radius := newRadius as real;
    }

    /** The same mutation for the move velocity. */
    method MutateMoveVelocity(genome: Genome, rng: RandomSource)
      modifies genome, rng
      ensures genome.Value() == old(genome.Value()).(moveVelocity := ScaledInt(old(genome.moveVelocity), ranges.moveVelocity, Factor(rng.draws, old(rng.At()))) as real)
      ensures rng.At() == NextDraw(old(rng.At()))
    {
      var moveVelocity := genome.moveVelocity;
      var factor := rng.Uniform(0.5, 1.5);
      assert factor == Factor(rng.draws, old(rng.At()));
      var newMoveVelocity;
      if factor > 1.0 {
        newMoveVelocity := Trunc(RealMin(factor * moveVelocity, ranges.moveVelocity.1));
      } else {
        newMoveVelocity := Trunc(RealMax(factor * moveVelocity, ranges.moveVelocity.0));
      }
      ScaledIntCases(moveVelocity, ranges.moveVelocity, factor);
      genome.moveVelocity := newMoveVelocity as real;
    }

    /** Mutates the attributes of one ability in order. */
    method MutateAbility(ability: Ability, rng: RandomSource) returns (r: Result<Ability, EvolutionError>)
      modifies rng
      ensures var spec := MutatedAbility(ability, ranges, rng.draws, old(rng.At()));
        && (r.Success? <==> spec.Success?)
        && (r.Success? ==> r.value == spec.value.0 && rng.At() == spec.value.1)
    {
      var kindRanges := RangesFor(ranges, ability.kind);
      var attributes := ability.attributes;
      ghost var start := rng.At();
      var done: seq<Attribute> := [];
      var i := 0;
      assert attributes[i..] == attributes;
      PrefixedNone(MutatedAttributes(attributes, kindRanges, rng.draws, start));
      while i < |attributes|
        invariant 0 <= i <= |attributes|
        invariant MutatedAttributes(attributes, kindRanges, rng.draws, start)
          == Prefixed(done, MutatedAttributes(attributes[i..], kindRanges, rng.draws, rng.At()))
      {
        var attribute := attributes[i];
        assert attributes[i..][1..] == attributes[i + 1..];
        ghost var before := rng.At();
        ghost var step := MutatedAttribute(attribute, kindRanges, rng.draws, before);
        var next: Attribute;
        match attribute.value {
          case Text(_) =>
            next := attribute;
          case Number(v) =>
            if attribute.name !in kindRanges {
              return Failure(MissingRange);
            }
            var range := kindRanges[attribute.name];
            var factor := rng.Uniform(0.5, 1.5);
            assert factor == Factor(rng.draws, before);
            var value;
            if factor > 1.0 {
              value := RealMin(factor * v, range.1);
            } else {
              value := RealMax(factor * v, range.0);
            }
            ScaledCases(v, range, factor);
            next := Attribute(attribute.name, Number(value));
          case Flag(b) =>
            var u := rng.Random();
            next := Attribute(attribute.name, Flag(if u > 1.0 - 0.2 then !b else b));
        }
        assert step == Success((next, rng.At()));
        PrefixedTwice(done, next, MutatedAttributes(attributes[i + 1..], kindRanges, rng.draws, rng.At()));
        done := done + [next];
        i := i + 1;
      }
      r := Success(Ability(ability.kind, done));
    }

    /** Mutates every ability of the genome in place, in order; a failure leaves the abilities before it mutated. */
    method MutateAbilities(genome: Genome, rng: RandomSource) returns (r: Result<(), EvolutionError>)
      modifies genome, rng
      ensures var spec := MutatedAbilities(old(genome.abilities), ranges, rng.draws, old(rng.At()));
        && (r.Success? <==> spec.Success?)
        && (r.Success? ==> genome.Value() == old(genome.Value()).(abilities := spec.value.0) && rng.At() == spec.value.1)
    {
      ghost var start := rng.At();
      ghost var original := genome.abilities;
      var i := 0;
      assert original[i..] == original && genome.abilities[..i] == [];
      PrefixedNone(MutatedAbilities(original, ranges, rng.draws, start));
      while i < |genome.abilities|
        invariant 0 <= i <= |genome.abilities| == |original|
        invariant genome.abilities[i..] == original[i..]
        invariant genome.Value() == old(genome.Value()).(abilities := genome.abilities)
        invariant MutatedAbilities(original, ranges, rng.draws, start)
          == Prefixed(genome.abilities[..i], MutatedAbilities(original[i..], ranges, rng.draws, rng.At()))
      {
        assert original[i..][1..] == original[i + 1..];
        var ability := genome.abilities[i];
        var m := MutateAbility(ability, rng);
        if m.Failure? {
          return Failure(m.error);
        }
        PrefixedTwice(genome.abilities[..i], m.value, MutatedAbilities(original[i + 1..], ranges, rng.draws, rng.At()));
        ghost var prefix := genome.abilities[..i];
        genome.abilities := genome.abilities[i := m.value];
        assert genome.abilities[..i + 1] == prefix + [m.value];
        i := i + 1;
      }
      assert genome.abilities[..i] == genome.abilities;
      r := Success(());
    }

    /** A deep copy of the first genome with a fresh id and one ability, at a random index, taken from the second. */
    method CrossoverScheme1(genome1: Individual, genome2: Individual, rng: RandomSource) returns (r: Result<Individual, EvolutionError>)
      modifies rng
      ensures var spec := Crossover(genome1, genome2, rng.draws, old(rng.At()));
        && (r.Success? <==> spec.Success?)
        && (r.Success? ==> r.value == spec.value.0 && rng.At() == spec.value.1)
    {
      var newCharacter := new Genome(genome1);
      var abilitySwapNumber :- rng.RandInt(0, |genome1.abilities| - 1);
      if |genome2.abilities| <= abilitySwapNumber {
        return Failure(MissingAbility);
      }
      var genome2Ability := genome2.abilities[abilitySwapNumber];
      newCharacter.abilities := newCharacter.abilities[abilitySwapNumber := genome2Ability];
      var id := rng.Uuid4();
      newCharacter.characterId := id;
      r := Success(newCharacter.Value());
    }

    /** Mutates radius, move velocity and abilities in place, then hands the genome to `change`, which
        stands for the unseen random ability replacement. */
    method MutationScheme1(genome: Genome, rng: RandomSource, change: Individual -> Individual) returns (r: Result<(), EvolutionError>)
      modifies genome, rng
      ensures var spec := Mutated(old(genome.Value()), ranges, rng.draws, old(rng.At()));
        && (r.Success? <==> spec.Success?)
        && (r.Success? ==> genome.Value() == change(spec.value.0) && rng.At() == spec.value.1)
    {
      MutateRadius(genome, rng);
      MutateMoveVelocity(genome, rng);
      r := MutateAbilities(genome, rng);
      if r.Failure? {
        return;
      }
      var changed := change(genome.Value());
      genome.characterId, genome.radius, genome.moveVelocity, genome.abilities :=
        changed.characterId, changed.radius, changed.moveVelocity, changed.abilities;
    }

    /** The last member of the population carrying the id, or None. */
    method GetCharacterInPopulationById(id: CharacterId, population: seq<Individual>) returns (character: Option<Individual>)
      ensures character == LastWithId(id, population)
    {
      character := None;
      for i := 0 to |population|
        invariant character == LastWithId(id, population[..i])
      {
        assert population[..i + 1][..i] == population[..i];
        if population[i].characterId == id {
          character := Some(population[i]);
        }
      }
      assert population[..|population|] == population;
    }

    /** The members carrying the s best-ranked ids, best first. */
    method SurvivingCharacters(population: seq<Individual>, ranked: seq<(real, CharacterId)>, s: nat)
      returns (r: Result<seq<Individual>, EvolutionError>)
      ensures r == Survivors(population, ranked, s)
    {
      if |ranked| < s {
        return Failure(TooFewRanked);
      }
      SurvivorsFromSpec(population, ranked, 0, s);
      var survivors: seq<Individual> := [];
      for i := 0 to s
        invariant |survivors| == i
        invariant forall j :: 0 <= j < i ==> LastWithId(Best(ranked, j).1, population) == Some(survivors[j])
      {
        var charId := Best(ranked, i).1;
        var found := GetCharacterInPopulationById(charId, population);
        if found.None? {
          assert LastWithId(Best(ranked, i).1, population).None?;
          return Failure(MissingCharacter);
        }
        survivors := survivors + [found.value];
      }
      ghost var spec := Survivors(population, ranked, s);
      assert spec.Success? && |spec.value| == s;
      assert forall j :: 0 <= j < s ==> spec.value[j] == survivors[j];
      assert spec.value == survivors;
      r := Success(survivors);
    }

    /** One child of every pair of survivors, in `combinations` order. */
    method MakeChildren(survivors: seq<Individual>, rng: RandomSource) returns (r: Result<seq<Individual>, EvolutionError>)
      modifies rng
      ensures var spec := CrossAll(Pairs(survivors), rng.draws, old(rng.At()));
        && (r.Success? <==> spec.Success?)
        && (r.Success? ==> r.value == spec.value.0 && rng.At() == spec.value.1)
    {
      var pairs := Pairs(survivors);
      ghost var start := rng.At();
      var children: seq<Individual> := [];
      assert pairs[0..] == pairs;
      PrefixedNone(CrossAll(pairs, rng.draws, start));
      for t := 0 to |pairs|
        invariant CrossAll(pairs, rng.draws, start) == Prefixed(children, CrossAll(pairs[t..], rng.draws, rng.At()))
      {
        assert pairs[t..][1..] == pairs[t + 1..];
        var child := CrossoverScheme1(pairs[t].0, pairs[t].1, rng);
        if child.Failure? {
          return Failure(child.error);
        }
        PrefixedTwice(children, child.value, CrossAll(pairs[t + 1..], rng.draws, rng.At()));
        children := children + [child.value];
      }
      r := Success(children);
    }

    /** `remaining` mutated clones of randomly chosen children (none when `remaining` is not positive). */
    method FillUpWithClones(children: seq<Individual>, remaining: int, rng: RandomSource, change: Individual -> Individual)
      returns (r: Result<seq<Individual>, EvolutionError>)
      modifies rng
      ensures var spec := FillUp(children, Max(remaining, 0), ranges, rng.draws, old(rng.At()), change);
        && (r.Success? <==> spec.Success?)
        && (r.Success? ==> r.value == spec.value.0 && rng.At() == spec.value.1)
    {
      var count := Max(remaining, 0);
      ghost var start := rng.At();
      var added: seq<Individual> := [];
      PrefixedNone(FillUp(children, count, ranges, rng.draws, start, change));
      var left: nat := count;
      while left > 0
        invariant FillUp(children, count, ranges, rng.draws, start, change)
          == Prefixed(added, FillUp(children, left, ranges, rng.draws, rng.At(), change))
      {
        ghost var before := rng.At();
        FillUpStep(children, left, ranges, rng.draws, before, change);
        var clone :- AddClone(children, rng, change);
        ghost var rest := FillUp(children, left - 1, ranges, rng.draws, rng.At(), change);
        assert FillUp(children, left, ranges, rng.draws, before, change) == Prefixed([clone], rest);
        PrefixedTwice(added, clone, rest);
        added := added + [clone];
        left := left - 1;
      }
      r := Success(added);
    }

    /** One pass of the clone loop: picks a child, deep-copies it and runs the first mutation scheme on the copy. */
    method AddClone(children: seq<Individual>, rng: RandomSource, change: Individual -> Individual)
      returns (r: Result<Individual, EvolutionError>)
      modifies rng
      ensures var spec := CloneOf(children, ranges, rng.draws, old(rng.At()), change);
        && (r.Success? <==> spec.Success?)
        && (r.Success? ==> r.value == spec.value.0 && rng.At() == spec.value.1)
    {
      var chosen :- rng.RandInt(0, |children| - 1);
      var clone := new Genome(children[chosen]);
      var m := MutationScheme1(clone, rng, change);
      if m.Failure? {
        return Failure(m.error);
      }
      r := Success(clone.Value());
    }

    /** One generation of `evolve`. */
    method NextGeneration(population: seq<Individual>, ranked: seq<(real, CharacterId)>, populationSize: nat,
                          rng: RandomSource, change: Individual -> Individual)
      returns (r: Result<seq<Individual>, EvolutionError>)
      modifies rng
      ensures var spec := NextGenerationOf(population, ranked, populationSize, ranges, rng.draws, old(rng.At()), change);
        && (r.Success? <==> spec.Success?)
        && (r.Success? ==> r.value == spec.value.0 && rng.At() == spec.value.1)
    {
      var survivingPopulationNumber := SurvivorCount(populationSize);
      var survivingCharacters :- SurvivingCharacters(population, ranked, survivingPopulationNumber);
      var children :- MakeChildren(survivingCharacters, rng);
      var currentPopulation := survivingCharacters + children;
      var remaining := populationSize - |currentPopulation|;
      var clones :- FillUpWithClones(children, remaining, rng, change);
      r := Success(currentPopulation + clones);
    }

    /** The closing list of `evolve`: each ranked entry with the last member carrying its id. */
    method RankedCharacters(ranked: seq<(real, CharacterId)>, population: seq<Individual>) returns (report: seq<RankedCharacter>)
      ensures report == Report(ranked, population)
    {
      report := [];
      for i := 0 to |ranked|
        invariant report == Report(ranked[..i], population)
      {
        var characterConfig := GetCharacterInPopulationById(ranked[i].1, population);
        report := report + [RankedCharacter(ranked[i].1, ranked[i].0, characterConfig)];
      }
      assert ranked[..|ranked|] == ranked;
    }

    /** `evolve`: three generations from `initial`, each ranked by `evaluate`, then the final ranking with
        each entry's genome. */
    method Evolve(initial: seq<Individual>, evaluate: seq<Individual> -> Dict<CharacterId, real>,
                  rng: RandomSource, change: Individual -> Individual)
      returns (r: Result<seq<RankedCharacter>, EvolutionError>)
      modifies rng
      ensures var spec := Generations(initial, |initial|, EvolveGenerations, ranges, rng.draws, old(rng.At()), evaluate, change);
        && (r.Success? <==> spec.Success?)
        && (r.Success? ==> r.value == Report(Ranked(evaluate(spec.value.0)), spec.value.0) && rng.At() == spec.value.1)
    {
      var currentPopulation := initial;
      var populationSize := |currentPopulation|;
      var g := 0;
      var generations := EvolveGenerations;
      ghost var total := Generations(currentPopulation, populationSize, generations, ranges, rng.draws, rng.At(), evaluate, change);
      var sortedFitnesses := Ranked(evaluate(currentPopulation));
      while g < generations
        invariant 0 <= g <= generations
        invariant sortedFitnesses == Ranked(evaluate(currentPopulation))
        invariant total == Generations(currentPopulation, populationSize, generations - g, ranges, rng.draws, rng.At(), evaluate, change)
      {
        ghost var here := rng.At();
        ghost var left: nat := generations - g;
        g := g + 1;
        var next := NextGeneration(currentPopulation, sortedFitnesses, populationSize, rng, change);
        if next.Failure? {
          GenerationsFail(currentPopulation, populationSize, left, ranges, rng.draws, here, evaluate, change);
          return Failure(next.error);
        }
        GenerationsAdvance(currentPopulation, populationSize, left, ranges, rng.draws, here, evaluate, change, next.value, rng.At());
        assert total == Generations(next.value, populationSize, left - 1, ranges, rng.draws, rng.At(), evaluate, change);
        assert generations - g == left - 1;
        currentPopulation := next.value;
        sortedFitnesses := Ranked(evaluate(currentPopulation));
      }
      var characterAndFitnessConfigs := RankedCharacters(sortedFitnesses, currentPopulation);
      r := Success(characterAndFitnessConfigs);
    }
  }
}
