# salvemundi genetic search: a Dafny model

salvemundi is a small genetic algorithm. It evolves a population of 1000 byte vectors (agents) toward the
target string `Hello, World!`. Each generation, every agent's fitness is scored. The fitness is the number
of positions that match the target, and it is cached in the agent. The run stops as solved when an agent
matches every position. Otherwise the population is sorted by fitness, highest first, and replaced by 1000
children. Each child is a single-point crossover of two selected parents and is then mutated position by
position.

The model has two modules:

- `Genes` (genes.dfy) is the value level. It has the `byte` type, `TARGET`, the match count `MatchCount`
  and its reference definition (the set of agreeing positions), `Fitness`, the crossover splice
  `CrossoverGenes`, and the mutation rewrite `Mutated`, with lemmas relating them.
- `Evolution` (evolution.dfy) is the stateful level:
  - `Agent` is a class whose `genes`, `fitness` and `calculated` fields are updated in place. Its
    invariant `Valid()` says three things: there is one gene per target byte, the stored fitness is a
    possible score, and that score belongs to the current genes whenever `calculated` is set.
  - `Crossover`, `Mutate` and `Select` are the operators.
  - The generation phases work on a population held in an `array<Agent>`: `InitialPopulation`,
    `EvaluatePopulation`, `SortByFitness` and `Reproduce`. `ScoreAndRank` is the scoring and the sort
    of one generation taken together.
  - `Evolve` is the loop of `main`, and `Run` is that loop with the source's own cap settings.

Randomness is an input. The initial genes are parameters. Each child gets a `Draw` holding three things: the
crossover point (below the target length), a per-position "chosen" mask standing for
`rand < MUTATION_RATE`, and the replacement bytes. `Evolve` takes one sequence of draws per generation.

The generation cap is a parameter of `Evolve`. In the source it is fixed by `GENERATIONS = 1000000` and
`INFINITE_GENERATIONS = true`, which are kept as constants. Making it a parameter lets the model cover
both branches of the cap test at src/main.rs:96.

The name `SELECT_FROM_TOP_PERCENT` (src/main.rs:9) suggests selection from an elite slice of the sorted
population. However, `select` returns the head of the population (src/main.rs:49-51), and the constant is
only printed in the startup banner (src/main.rs:85-88). `select` never reads it, so `Select` returns
element 0. `Reproduce` states a consequence of this. Both parents are the same agent, so crossover gives
back the fittest agent's genes (`CrossoverIdenticalParents`), and every child is a mutation of that one
agent.

`Evolve` also returns a ghost `history`: the gene vectors of each generation the run reached, starting with
the initial ones. When the cap stops the run, its last entry is a generation that was never scored. Its contract ties the outcome to that history. Every generation before the last one was
scored without a match and before the cap. Each generation's successor is the per-draw mutation of a
maximal-fitness member of it. The outcome is decided by the last generation.

## Model

| member | source | states |
|---|---|---|
| `Genes.MatchCount` | src/main.rs:33-38 | The zip-fold count of matching positions is at most the length of the genes and at most the length of the target. |
| `Genes.MatchCountIsPositions` | src/main.rs:33-38 | The count equals the number of indices `i` with `genes[i] == target[i]`, which is the reference definition. |
| `Genes.Fitness` | src/main.rs:33-38 | The fitness of any gene vector lies in between 0 and the target length. |
| `Genes.FullMatchIffEqual` | src/main.rs:102 | For equal lengths, a score equal to the target length holds exactly when the genes equal the target (both directions). |
| `Genes.MatchCountSplit` | src/main.rs:33-38 | The count over a vector is the count over any prefix plus the count over the remaining suffix. |
| `Genes.CrossoverGenes` | src/main.rs:56-62 | When the point is within both parents, the child has the second parent's length, `child[..p] == parent1[..p]` and `child[p..] == parent2[p..]`. |
| `Genes.CrossoverIdenticalParents` | src/main.rs:56-62 | Crossing a gene vector with itself returns it unchanged, at every point. |
| `Genes.CrossoverFitness` | src/main.rs:56-62 | The child's fitness is the first parent's matches on the prefix plus the second parent's matches on the suffix. |
| `Genes.Mutated` | src/main.rs:72-76 | Mutation keeps the gene length. |
| `Genes.MutatedNoneChosen` | src/main.rs:72-76 | A mask that chose no position leaves the genes unchanged. |
| `Genes.MutationFitnessBound` | src/main.rs:72-76 | A mutation changes the match count by at most the number of chosen positions, up or down. |
| `Evolution.Agent.constructor` | src/main.rs:19-26 | A new agent has the given genes, `fitness == 0` and `calculated == false`. It is valid when it has one gene per target byte. |
| `Evolution.Agent.CalculateFitness` | src/main.rs:28-42 | On a cache hit it returns the stored fitness and changes neither genes nor fitness. On a miss the fitness becomes the match count. In both cases `calculated` is set, the result equals the stored fitness, and validity is kept with the result equal to the genes' score. |
| `Evolution.FitnessIsCached` | src/main.rs:29-31 | Two calls in a row return the same value and only touch `fitness` and `calculated`, never the genes. After the first call `calculated` holds, so the second is a cache hit (ghost `secondWasHit`). An already scored agent returns its stored fitness. A valid agent returns the score of its genes. |
| `Evolution.Select` | src/main.rs:49-51 | The chosen parent belongs to the population. On a population sorted highest first, its fitness is at least every agent's fitness. |
| `Evolution.Crossover` | src/main.rs:53-69 | The child is a fresh agent with the spliced genes, `fitness == 0` and `calculated == false`. It is valid when both parents are valid. |
| `Evolution.Mutate` | src/main.rs:71-78 | Genes become the mask rewrite of the old genes: chosen positions take their replacement, other positions keep their byte, and the length is kept. `calculated` becomes `old(calculated) && no position chosen`, even when the new byte equals the old one. `fitness` is not touched, and validity is kept. |
| `Evolution.InitialPopulation` | src/main.rs:90-93 | The first population has `POPULATION_SIZE` distinct, fresh, valid agents carrying the initial genes, each unscored: `fitness == 0` and `calculated == false`. |
| `Evolution.EvaluatePopulation` | src/main.rs:100-110 | Every agent stays valid and keeps its genes. A reported solver has genes equal to `TARGET` and cached fitness equal to the target length. With no solver, every agent is scored correctly, below the target length. No solver is reported exactly when no agent's genes equal `TARGET`. |
| `Evolution.SortedHeadIsFittest` | src/main.rs:112 | After scoring and sorting highest first, every agent's genes come from the scored generation, and the head's genes have maximal fitness in it. |
| `Evolution.Swap` | src/main.rs:112 | The two agents trade places, every other slot keeps its agent, and the population stays a permutation of itself. |
| `Evolution.Insert` | src/main.rs:112 | Given the first `i` agents in non-increasing fitness order, the first `i + 1` end in that order, and the population stays a permutation of itself. |
| `Evolution.SortByFitness` | src/main.rs:112 | The population is rearranged into a permutation of itself, ordered non-increasingly by fitness. |
| `Evolution.ScoreAndRank` | src/main.rs:100-112 | A solver is reported exactly when the generation holds a vector equal to `TARGET`, and it carries those genes. In either case the array ends as a permutation of itself. Without a solver the agents stay valid, are sorted highest first and keep genes of the generation, and the head's genes have maximal fitness in it. |
| `Evolution.Reproduce` | src/main.rs:114-123 | The next population has exactly `POPULATION_SIZE` distinct, fresh, valid, unscored agents (`fitness == 0` and `calculated == false`). Each child's genes are the per-draw mutation of the head's genes. |
| `Evolution.FittestBreeds` | src/main.rs:114-123 | For a gene vector `h` of maximal fitness in `parents`, its mutations under the draws, `Offspring(h, draws)`, satisfy `BredFrom(parents, Offspring(h, draws), draws)`: one child per draw, each the mask rewrite of `h`. |
| `Evolution.CapReached` | src/main.rs:96 | The cap test `!INFINITE_GENERATIONS && generation >= GENERATIONS`: with the cap disabled it never stops the run. |
| `Evolution.SearchedStep` | src/main.rs:95-126 | A generation scored before the cap without a match, followed by its children, extends the record of searched generations by one. |
| `Evolution.Evolve` | src/main.rs:95-126 | The ghost history starts with the initial genes and has one entry per generation the run reached, each of `POPULATION_SIZE` vectors of target length. Every generation before the last one came before the cap and holds no vector equal to `TARGET`. Each one's successor is, draw by draw, the mutation of a maximal-fitness member of it. Solved: the reported genes equal `TARGET` and occur in the last generation. Exhausted: exactly when the cap is reached, which happens only with the cap enabled, at generation `generations`. Unfinished: only once the draws have run out, with a sorted, valid population of that last generation's genes, none equal to `TARGET`. An initial population holding the target is solved at generation 0, unless the cap stops the run before generation 0 is scored. |
| `Evolution.Run` | src/main.rs:95-98 | With the source's constants `GENERATIONS` and `INFINITE_GENERATIONS`, the cap is never reached, so a run is either solved with genes equal to `TARGET` or still going when the draws run out. |

## Left out

- Parallelism: rayon's parallel iterators, parallel sort and collection (src/main.rs:90-93, 100, 112, 114-123) are modelled as sequential loops.
- The abrupt `std::process::exit` race between threads is a concurrency matter and is not modelled. Evaluation therefore reports the first solver in index order, with the agents before it scored. The source may report any solver found by any thread.
- Random number generation (src/main.rs:20-22, 55, 73-74) is replaced by parameters: initial genes, crossover points, mutation masks and replacement bytes. Distributions are not modelled.
- The `f64` comparison against `MUTATION_RATE` (src/main.rs:73) is floating point. It is captured by the boolean mask.
- Console output with ANSI colours, process exit and the failure message (src/main.rs:81-88, 103-108, 128) are I/O. `genes_as_string` (src/main.rs:44-46) only formats genes for that output.
- `SELECT_FROM_TOP_PERCENT` (src/main.rs:9) has no effect on the logic, so no elite slice is modelled.
- Evolve: the unbounded `for generation in 0..` loop is modelled only for as many generations as draws are supplied. It ends in `Unfinished` when they run out, so a run that never terminates is not modelled.
- Evolve: the generation counter is an unbounded `nat`, so the `u32` counter's behaviour past 2^32 generations is not modelled. The fitness `i32` is an `int`; it never exceeds 13.
- SortByFitness: stability of rayon's `par_sort_by` is not stated. Only order and permutation are, so which of several equally fit agents ends up at the head is left open.
