/** The stateful part of the genetic search: agents with a memoised
    fitness, the mutation and crossover operators, selection, and the
    generational loop over a population held in an array. */
module Evolution {
  import opened Genes

  /** How many agents every generation holds. */
  const POPULATION_SIZE: nat := 1000
  /** The generation cap; it is consulted only when `INFINITE_GENERATIONS` is false. */
  const GENERATIONS: nat := 1000000
  /** When true, the search runs until some agent matches the target. */
  const INFINITE_GENERATIONS: bool := true

  datatype Option<T> = None | Some(value: T)

  /** One candidate solution: its genes and a cache of their fitness. */
  class Agent {
    var genes: seq<byte>
    var fitness: int
    var calculated: bool

    /** Every agent carries exactly one gene per target byte; its stored
        fitness is a possible score, and it is the score of the current
        genes whenever the cache flag says so. */
    ghost predicate Valid()
      reads this
    {
      && |genes| == |TARGET|
      && 0 <= fitness <= |TARGET|
      && (calculated ==> fitness == Fitness(genes))
    }

    /** An agent as the source builds one, from initial or child genes, not yet scored. */
    constructor (genes: seq<byte>)
      ensures this.genes == genes && fitness == 0 && !calculated
      ensures |genes| == |TARGET| ==> Valid()
    {
      this.genes := genes;
      fitness := 0;
      calculated := false;
    }

    /** Returns the score of the genes, from the cache when it is valid,
        otherwise by counting the positions that match the target and
        storing the count. */
    method CalculateFitness() returns (f: int)
      modifies this`fitness, this`calculated
      ensures genes == old(genes)
      ensures calculated && f == fitness
      ensures old(calculated) ==> fitness == old(fitness)
      ensures !old(calculated) ==> fitness == Fitness(genes)
      ensures old(Valid()) ==> Valid() && f == Fitness(genes)
    {
      if calculated {
        return fitness;
      }
      fitness := Fitness(genes);
      calculated := true;
      f := fitness;
    }
  }

  /** Scoring an agent twice with nothing in between gives the same value,
      leaves the genes alone, and the second call finds the cache valid. */
  method FitnessIsCached(agent: Agent) returns (first: int, second: int, ghost secondWasHit: bool)
    modifies agent`fitness, agent`calculated
    ensures agent.genes == old(agent.genes)
    ensures first == second && agent.calculated && agent.fitness == first
    ensures secondWasHit
    ensures old(agent.calculated) ==> first == old(agent.fitness)
    ensures old(agent.Valid()) ==> first == Fitness(agent.genes)
  {
    first := agent.CalculateFitness();
    secondWasHit := agent.calculated;
    second := agent.CalculateFitness();
  }

  /** Every agent of the sequence is valid. */
  ghost predicate AllValid(agents: seq<Agent>)
    reads agents
  {
    forall i :: 0 <= i < |agents| ==> agents[i].Valid()
  }

  /** The agents are ordered by stored fitness, highest first. */
  ghost predicate SortedByFitness(agents: seq<Agent>)
    reads agents
  {
    forall i, j :: 0 <= i < j < |agents| ==> agents[i].fitness >= agents[j].fitness
  }

  /** A reordering of a sequence of agents holds the same agents. */
  lemma PermutationMembers(before: seq<Agent>, after: seq<Agent>)
    requires multiset(before) == multiset(after)
    ensures forall i :: 0 <= i < |after| ==> after[i] in before
  {
    forall i | 0 <= i < |after|
      ensures after[i] in before
    {
      assert after[i] in multiset(after);
    }
  }

  /** After an evaluated population is sorted, its agents still carry the
      genes of that generation, and the head carries a fittest vector. */
  lemma SortedHeadIsFittest(evaluated: seq<Agent>, sorted: seq<Agent>, genes: seq<seq<byte>>)
    requires multiset(evaluated) == multiset(sorted) && SortedByFitness(sorted)
    requires |evaluated| == |genes| > 0
    requires forall k :: 0 <= k < |evaluated| ==>
      evaluated[k].fitness == Fitness(evaluated[k].genes) && evaluated[k].genes == genes[k]
    ensures forall k :: 0 <= k < |sorted| ==> sorted[k].genes in genes
    ensures Fittest(sorted[0].genes, genes)
  {
    PermutationMembers(evaluated, sorted);
    PermutationMembers(sorted, evaluated);
    forall h' | h' in genes
      ensures Fitness(sorted[0].genes) >= Fitness(h')
    {
      var j :| 0 <= j < |genes| && genes[j] == h';
      var i :| 0 <= i < |sorted| && sorted[i] == evaluated[j];
    }
  }

  /** A parent for breeding: the head of the population. On a population
      sorted by fitness, highest first, it is at least as fit as every agent. */
  function Select(population: seq<Agent>): (parent: Agent)
    reads population
    requires |population| > 0
    ensures parent in population
    ensures SortedByFitness(population) ==>
      forall i :: 0 <= i < |population| ==> parent.fitness >= population[i].fitness
  {
    population[0]
  }

  /** A fresh, unscored child whose genes splice the two parents at `point`. */
  method Crossover(parent1: Agent, parent2: Agent, point: nat) returns (child: Agent)
    requires point < |TARGET|
    ensures fresh(child)
    ensures child.genes == CrossoverGenes(parent1.genes, parent2.genes, point)
    ensures child.fitness == 0 && !child.calculated
    ensures parent1.Valid() && parent2.Valid() ==> child.Valid()
  {
    child := new Agent(CrossoverGenes(parent1.genes, parent2.genes, point));
  }

  /** Rewrites every chosen gene in place with its replacement byte; the
      cache is invalidated as soon as one position is chosen, whether or not
      the byte changes, and left alone otherwise. */
  method Mutate(individual: Agent, chosen: seq<bool>, replacement: seq<byte>)
    requires |chosen| == |individual.genes| && |replacement| == |individual.genes|
    modifies individual`genes, individual`calculated
    ensures individual.genes == Mutated(old(individual.genes), chosen, replacement)
    ensures individual.calculated == (old(individual.calculated) && !AnyChosen(chosen))
    ensures old(individual.Valid()) ==> individual.Valid()
  {
    ghost var before := individual.genes;
    var i := 0;
    while i < |individual.genes|
      invariant 0 <= i <= |individual.genes| == |before|
      invariant forall j :: 0 <= j < i ==> individual.genes[j] == if chosen[j] then replacement[j] else before[j]
      invariant forall j :: i <= j < |before| ==> individual.genes[j] == before[j]
      invariant individual.calculated == (old(individual.calculated) && forall j :: 0 <= j < i ==> !chosen[j])
    {
      if chosen[i] {
        individual.genes := individual.genes[i := replacement[i]];
        individual.calculated := false;
      }
      i := i + 1;
    }
    assert individual.genes == Mutated(before, chosen, replacement);
    if !AnyChosen(chosen) {
      MutatedNoneChosen(before, chosen, replacement);
    }
  }

  /** The first generation: one fresh, unscored agent per initial gene vector. */
  method InitialPopulation(initial: seq<seq<byte>>) returns (population: array<Agent>)
    requires |initial| == POPULATION_SIZE
    requires forall k :: 0 <= k < |initial| ==> |initial[k]| == |TARGET|
    ensures fresh(population) && population.Length == POPULATION_SIZE
    ensures AllValid(population[..])
    ensures forall k :: 0 <= k < population.Length ==>
      && fresh(population[k])
      && population[k].genes == initial[k]
      && population[k].fitness == 0
      && !population[k].calculated
    ensures forall k, l :: 0 <= k < l < population.Length ==> population[k] != population[l]
  {
    var agents: seq<Agent> := [];
    while |agents| < |initial|
      invariant |agents| <= |initial|
      invariant forall k :: 0 <= k < |agents| ==>
        && fresh(agents[k])
        && agents[k].Valid()
        && agents[k].genes == initial[k]
        && agents[k].fitness == 0
        && !agents[k].calculated
      invariant forall k, l :: 0 <= k < l < |agents| ==> agents[k] != agents[l]
    {
      var agent := new Agent(initial[|agents|]);
      agents := agents + [agent];
    }
    population := new Agent[|agents|](k requires 0 <= k < |agents| => agents[k]);
  }

  /** Scores every agent in turn and stops at the first one whose score
      equals the target length, reporting its index. */
  method EvaluatePopulation(population: array<Agent>) returns (solver: Option<nat>)
    requires AllValid(population[..])
    modifies population[..]
    ensures AllValid(population[..])
    ensures forall i :: 0 <= i < population.Length ==> population[i].genes == old(population[i].genes)
    ensures solver.Some? ==>
      && solver.value < population.Length
      && population[solver.value].genes == TARGET
      && population[solver.value].calculated
      && population[solver.value].fitness == |TARGET|
    ensures solver.None? ==> forall i :: 0 <= i < population.Length ==>
      && population[i].calculated
      && population[i].fitness == Fitness(population[i].genes) < |TARGET|
    ensures solver.None? <==> forall i :: 0 <= i < population.Length ==> old(population[i].genes) != TARGET
  {
    var i := 0;
    while i < population.Length
      invariant 0 <= i <= population.Length
      invariant AllValid(population[..])
      invariant forall j :: 0 <= j < population.Length ==> population[j].genes == old(population[j].genes)
      invariant forall j :: 0 <= j < i ==>
        population[j].calculated && population[j].fitness == Fitness(population[j].genes) < |TARGET|
    {
      var agent := population[i];
      var f := agent.CalculateFitness();
      FullMatchIffEqual(agent.genes, TARGET);
      if f == |TARGET| {
        return Some(i);
      }
      i := i + 1;
    }
    forall j | 0 <= j < population.Length
      ensures old(population[j].genes) != TARGET
    {
      FullMatchIffEqual(population[j].genes, TARGET);
    }
    return None;
  }

  /** Exchanges two agents of a population. */
  method Swap(population: array<Agent>, i: nat, j: nat)
    requires i < population.Length && j < population.Length
    modifies population
    ensures population[i] == old(population[j]) && population[j] == old(population[i])
    ensures forall k :: 0 <= k < population.Length && k != i && k != j ==> population[k] == old(population[k])
    ensures multiset(population[..]) == multiset(old(population[..]))
  {
    population[i], population[j] := population[j], population[i];
  }

  /** One step of the insertion sort: the agent at `i` moves up past the
      less fit agents before it, so the first `i + 1` agents are in order. */
  method Insert(population: array<Agent>, i: nat)
    requires i < population.Length
    requires forall k, l :: 0 <= k < l < i ==> population[k].fitness >= population[l].fitness
    modifies population
    ensures forall k, l :: 0 <= k < l <= i ==> population[k].fitness >= population[l].fitness
    ensures forall k :: i < k < population.Length ==> population[k] == old(population[k])
    ensures multiset(population[..]) == multiset(old(population[..]))
  {
    var j := i;
    while j > 0 && population[j - 1].fitness < population[j].fitness
      invariant 0 <= j <= i
      invariant forall k, l :: 0 <= k < l <= i && l != j ==> population[k].fitness >= population[l].fitness
      invariant forall k :: i < k < population.Length ==> population[k] == old(population[k])
      invariant multiset(population[..]) == multiset(old(population[..]))
    {
      Swap(population, j - 1, j);
      j := j - 1;
    }
  }

  /** Sorts the population in place by fitness, highest first. */
  method SortByFitness(population: array<Agent>)
    modifies population
    ensures SortedByFitness(population[..])
    ensures multiset(population[..]) == multiset(old(population[..]))
  {
    var i := 1;
    while i < population.Length
      invariant 1 <= i && (population.Length > 0 ==> i <= population.Length)
      invariant forall k, l :: 0 <= k < l < i && l < population.Length ==> population[k].fitness >= population[l].fitness
      invariant multiset(population[..]) == multiset(old(population[..]))
    {
      Insert(population, i);
      i := i + 1;
    }
  }

  /** The random choices that breed one child: the crossover point, the
      positions mutation chooses and the bytes it writes there. */
  datatype Draw = Draw(point: nat, chosen: seq<bool>, replacement: seq<byte>)

  /** The choices are in range: a point below the target length and one
      mask entry and one byte per gene. */
  predicate DrawFits(d: Draw)
  {
    d.point < |TARGET| && |d.chosen| == |TARGET| && |d.replacement| == |TARGET|
  }

  /** Breeds the next generation from a population: every child is a
      crossover of two selected parents, then mutated. */
  method Reproduce(population: array<Agent>, draws: seq<Draw>) returns (next: array<Agent>)
    requires population.Length > 0 && AllValid(population[..])
    requires |draws| == POPULATION_SIZE && forall k :: 0 <= k < |draws| ==> DrawFits(draws[k])
    ensures fresh(next) && next.Length == POPULATION_SIZE
    ensures AllValid(next[..])
    ensures forall k :: 0 <= k < next.Length ==>
      && fresh(next[k])
      && DrawFits(draws[k])
      && next[k].fitness == 0
      && !next[k].calculated
      && next[k].genes == Mutated(population[0].genes, draws[k].chosen, draws[k].replacement)
    ensures forall k, l :: 0 <= k < l < next.Length ==> next[k] != next[l]
  {
    var children: seq<Agent> := [];
    while |children| < POPULATION_SIZE
      invariant |children| <= POPULATION_SIZE
      invariant forall k :: 0 <= k < |children| ==>
        && fresh(children[k])
        && children[k].Valid()
        && children[k].fitness == 0
        && !children[k].calculated
        && children[k].genes == Mutated(population[0].genes, draws[k].chosen, draws[k].replacement)
      invariant forall k, l :: 0 <= k < l < |children| ==> children[k] != children[l]
    {
      var d := draws[|children|];
      var parent1 := Select(population[..]);
      var parent2 := Select(population[..]);
      var child := Crossover(parent1, parent2, d.point);
      CrossoverIdenticalParents(parent1.genes, d.point);
      Mutate(child, d.chosen, d.replacement);
      children := children + [child];
    }
    next := new Agent[|children|](k requires 0 <= k < |children| => children[k]);
  }

  /** Whether the generation cap stops the run before `generation` starts. */
  predicate CapReached(generations: nat, infinite: bool, generation: nat): (reached: bool)
    ensures infinite ==> !reached
  {
    !infinite && generation >= generations
  }

  /** How a run ends: a solution found in some generation, the cap reached,
      or the supplied random choices used up with the search still going. */
  datatype Outcome =
    | Solved(generation: nat, genes: seq<byte>)
    | Exhausted(generation: nat)
    | Unfinished(generation: nat, population: array<Agent>)

  /** The genes of one generation: one vector per agent, one gene per target byte. */
  ghost predicate IsGeneration(genes: seq<seq<byte>>)
  {
    |genes| == POPULATION_SIZE && forall k :: 0 <= k < |genes| ==> |genes[k]| == |TARGET|
  }

  /** `h` is one of the gene vectors of a generation and none there scores higher. */
  ghost predicate Fittest(h: seq<byte>, genes: seq<seq<byte>>)
  {
    h in genes && forall h' :: h' in genes ==> Fitness(h) >= Fitness(h')
  }

  /** `children` are the mutations of `h` under the draws, one child per draw. */
  ghost predicate MutationsOf(children: seq<seq<byte>>, h: seq<byte>, draws: seq<Draw>)
  {
    && |children| == |draws|
    && forall k :: 0 <= k < |draws| ==>
      && |draws[k].chosen| == |h|
      && |draws[k].replacement| == |h|
      && children[k] == Mutated(h, draws[k].chosen, draws[k].replacement)
  }

  /** `children` come from `parents` as one generation breeds the next: the
      mutations, under the draws, of a fittest gene vector of `parents`. */
  ghost predicate BredFrom(parents: seq<seq<byte>>, children: seq<seq<byte>>, draws: seq<Draw>)
  {
    exists h :: Fittest(h, parents) && MutationsOf(children, h, draws)
  }

  /** The genes of the children of `h`: its mutation under each draw. */
  ghost function Offspring(h: seq<byte>, draws: seq<Draw>): (children: seq<seq<byte>>)
    requires |h| == |TARGET| && forall k :: 0 <= k < |draws| ==> DrawFits(draws[k])
    ensures |children| == |draws|
    ensures forall k :: 0 <= k < |draws| ==> |children[k]| == |TARGET|
  {
    seq(|draws|, k requires 0 <= k < |draws| && DrawFits(draws[k]) => Mutated(h, draws[k].chosen, draws[k].replacement))
  }

  /** Breeding from a fittest gene vector is breeding the generation. */
  lemma FittestBreeds(parents: seq<seq<byte>>, h: seq<byte>, draws: seq<Draw>)
    requires Fittest(h, parents) && |h| == |TARGET|
    requires forall k :: 0 <= k < |draws| ==> DrawFits(draws[k])
    ensures BredFrom(parents, Offspring(h, draws), draws)
  {
    assert MutationsOf(Offspring(h, draws), h, draws);
  }

  /** The first `n` generations of `history` were all searched without
      success: each came before the cap, held no vector equal to the target and
      bred the next one under its draws. */
  ghost predicate Searched(history: seq<seq<seq<byte>>>, generations: nat, infinite: bool, draws: seq<seq<Draw>>, n: nat)
  {
    && n < |history|
    && n <= |draws|
    && forall g :: 0 <= g < n ==>
      && !CapReached(generations, infinite, g)
      && TARGET !in history[g]
      && BredFrom(history[g], history[g + 1], draws[g])
  }

  /** One more unsuccessful generation, followed by its children, extends the search. */
  lemma SearchedStep(history: seq<seq<seq<byte>>>, generations: nat, infinite: bool, draws: seq<seq<Draw>>, bred: seq<seq<byte>>)
    requires 0 < |history| <= |draws|
    requires Searched(history, generations, infinite, draws, |history| - 1)
    requires !CapReached(generations, infinite, |history| - 1) && TARGET !in history[|history| - 1]
    requires BredFrom(history[|history| - 1], bred, draws[|history| - 1])
    ensures Searched(history + [bred], generations, infinite, draws, |history|)
  {
    var next := history + [bred];
    forall g | 0 <= g < |history|
      ensures !CapReached(generations, infinite, g) && TARGET !in next[g] && BredFrom(next[g], next[g + 1], draws[g])
    {
      assert next[g] == history[g];
      if g + 1 < |history| {
        assert next[g + 1] == history[g + 1];
      }
    }
  }

  /** The scoring and the sort of one generation, whose genes are
      `current`: either an agent matching the target is reported, or there is
      none and the agents, still valid, are rearranged highest fitness first,
      each keeping genes of the generation, with a fittest one at the head. */
  method ScoreAndRank(population: array<Agent>, ghost current: seq<seq<byte>>) returns (solver: Option<nat>)
    requires population.Length == |current| > 0 && AllValid(population[..])
    requires forall k :: 0 <= k < population.Length ==> population[k].genes == current[k]
    modifies population, population[..]
    ensures solver.Some? ==> solver.value < population.Length && population[solver.value].genes == TARGET
    ensures solver.Some? <==> TARGET in current
    ensures forall k :: 0 <= k < population.Length ==> population[k] in old(population[..])
    ensures multiset(population[..]) == multiset(old(population[..]))
    ensures solver.None? ==>
      && SortedByFitness(population[..])
      && AllValid(population[..])
      && (forall k :: 0 <= k < population.Length ==> population[k].genes in current)
      && Fittest(population[0].genes, current)
  {
    ghost var before := population[..];
    solver := EvaluatePopulation(population);
    assert population[..] == before;
    if solver.Some? {
      assert current[solver.value] == TARGET;
      return;
    }
    assert TARGET !in current by {
      forall k | 0 <= k < |current| ensures current[k] != TARGET {
        assert population[k].genes == current[k];
      }
    }
    ghost var scored := population[..];
    SortByFitness(population);
    SortedHeadIsFittest(scored, population[..], current);
    PermutationMembers(scored, population[..]);
  }

  /** The search: from the initial population, each generation is scored,
      stopping as solved at a full match, then sorted, then replaced by its
      children; `draws[g]` holds the random choices of generation `g`.
      `history[g]` is the genes of generation `g`, for every generation the
      run reached. */
  method Evolve(initial: seq<seq<byte>>, generations: nat, infinite: bool, draws: seq<seq<Draw>>)
    returns (outcome: Outcome, ghost history: seq<seq<seq<byte>>>)
    requires |initial| == POPULATION_SIZE
    requires forall k :: 0 <= k < |initial| ==> |initial[k]| == |TARGET|
    requires forall g :: 0 <= g < |draws| ==> |draws[g]| == POPULATION_SIZE
    requires forall g, k :: 0 <= g < |draws| && 0 <= k < |draws[g]| ==> DrawFits(draws[g][k])
    ensures outcome.generation <= |draws|
    ensures |history| == outcome.generation + 1 && history[0] == initial
    ensures forall g :: 0 <= g < |history| ==> IsGeneration(history[g])
    ensures forall g :: 0 <= g < outcome.generation ==>
      !CapReached(generations, infinite, g) && TARGET !in history[g]
    ensures forall g :: 0 <= g < outcome.generation ==>
      BredFrom(history[g], history[g + 1], draws[g])
    ensures outcome.Exhausted? <==> CapReached(generations, infinite, outcome.generation)
    ensures outcome.Exhausted? ==> !infinite && outcome.generation == generations
    ensures outcome.Solved? ==> outcome.genes == TARGET && TARGET in history[outcome.generation]
    ensures outcome.Unfinished? ==>
      && outcome.generation == |draws|
      && TARGET !in history[outcome.generation]
      && outcome.population.Length == POPULATION_SIZE
      && AllValid(outcome.population[..])
      && SortedByFitness(outcome.population[..])
      && forall k :: 0 <= k < POPULATION_SIZE ==> outcome.population[k].genes in history[outcome.generation]
    ensures (exists k :: 0 <= k < |initial| && initial[k] == TARGET) && !CapReached(generations, infinite, 0) ==>
      outcome == Solved(0, TARGET)
  {
    var population := InitialPopulation(initial);
    var generation := 0;
    history := [initial];
    while true
      invariant generation <= |draws|
      invariant |history| == generation + 1 && history[0] == initial
      invariant forall g :: 0 <= g < |history| ==> IsGeneration(history[g])
      invariant fresh(population) && population.Length == POPULATION_SIZE
      invariant forall k :: 0 <= k < population.Length ==> fresh(population[k])
      invariant forall k :: 0 <= k < population.Length ==> population[k].genes == history[generation][k]
      invariant AllValid(population[..])
      invariant infinite || generation <= generations
      invariant Searched(history, generations, infinite, draws, generation)
      decreases |draws| - generation
    {
      if CapReached(generations, infinite, generation) {
        return Exhausted(generation), history;
      }
      ghost var current := history[generation];
      ghost var scored := population[..];
      var solver := ScoreAndRank(population, current);
      if solver.Some? {
        return Solved(generation, population[solver.value].genes), history;
      }
      forall k | 0 <= k < population.Length ensures fresh(population[k]) {
        assert population[k] in scored;
      }
      if generation == |draws| {
        return Unfinished(generation, population), history;
      }
      var d := draws[generation];
      ghost var bred := Offspring(population[0].genes, d);
      FittestBreeds(current, population[0].genes, d);
      SearchedStep(history, generations, infinite, draws, bred);
      population := Reproduce(population, d);
      history := history + [bred];
      generation := generation + 1;
    }
  }

  /** The search with the source's own cap settings: since they make the
      run unbounded, it never stops as exhausted. */
  method Run(initial: seq<seq<byte>>, draws: seq<seq<Draw>>) returns (outcome: Outcome)
    requires |initial| == POPULATION_SIZE
    requires forall k :: 0 <= k < |initial| ==> |initial[k]| == |TARGET|
    requires forall g :: 0 <= g < |draws| ==> |draws[g]| == POPULATION_SIZE
    requires forall g, k :: 0 <= g < |draws| && 0 <= k < |draws[g]| ==> DrawFits(draws[g][k])
    ensures !outcome.Exhausted?
    ensures outcome.Solved? ==> outcome.genes == TARGET
    ensures outcome.Unfinished? ==> outcome.generation == |draws|
  {
    ghost var history;
    outcome, history := Evolve(initial, GENERATIONS, INFINITE_GENERATIONS, draws);
  }
}
