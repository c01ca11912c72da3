# A verified model of a genetic-algorithm TSP solver

The modelled program (`src/main.py`) looks for a short closed tour through
cities in three dimensions. It uses a genetic algorithm:

- a four-tier schedule maps the city count to a population size, a
  generation count, a mutation rate and an elite count;
- the population starts as shuffled copies of the city list;
- every generation ranks the paths by tour length and draws a mating pool
  by roulette-wheel selection, weighted by raw tour length;
- the elites are copied over unchanged;
- one child is bred per two pool slots, by order crossover with the fixed
  window `[1, len // 2]` and then a segment-reversal mutation;
- at the end the program prints the head of the last rank list and the first
  path of the final population.

The model is functional Dafny, one module per component:

| file | module | component |
|---|---|---|
| `base.dfy` | `Base` | exceptions as `Result`, cities, paths, sequence facts |
| `schedule.dfy` | `Schedule` | `adjust_parameters_based_on_complexity` |
| `tour.dfy` | `Tour` | `calculate_fitness` |
| `ranking.dfy` | `Ranking` | `rank_population`, with the stable `list.sort` |
| `selection.dfy` | `Selection` | `create_mating_pool` |
| `crossover.dfy` | `Crossover` | `crossover` |
| `mutation.dfy` | `Mutation` | `mutate`, with `random.randint` |
| `generation.dfy` | `Generation` | `next_generation` |
| `evolution.dfy` | `Evolution` | `create_initial_population` with `random.shuffle`, the main loop, the report |

How the model represents the program:

- **Randomness.** Every random value is an input.
  - A roulette draw is a real.
  - A mutation draw is a coin (a real) and two naturals. `RandInt(lo, hi, pick)`
    folds each natural into `[lo, hi]`, so every value of the range is reached
    and nothing outside it.
  - Folding uses `Base.Mod`, the remainder written as repeated subtraction.
    `Base.ModIsRemainder` shows it equals `%`. The same function models the
    `%` of the breeding loop.
  - A shuffle is a function from positions to naturals, folded into the range
    of `random.shuffle`'s swaps.
- **Exceptions.** Each exception becomes an `Err` of `IndexError`,
  `ValueError` or `NameError`, raised at the point where Python would raise it.
- **Distance.** It is an arbitrary function `(City, City) -> real`.
  Non-negativity and symmetry are stated as hypotheses where a property needs
  them.

The main results:

- **Crossover.** For parents that are permutations of the same distinct
  cities, with a window that fits, the crossover never runs its `parent2`
  cursor off the end. The child equals an independent reference,
  `OrderChild`: the cities of `parent2` missing from the window, in
  `parent2`'s order, with the window of `parent1` spliced in at its own
  position. The child is therefore a permutation that keeps the window.
- **Generation step.** It keeps "every path is a tour of the cities". It
  carries the best path over, so `fitness(next[0]) == ranks[0].fitness`.
- **Whole run.** For at least two distinct cities and any random values, the
  run ends without an exception. It prints a tour of all the cities, and the
  printed fitness is that tour's length.

## Model

| member | source | states |
|---|---|---|
| `Schedule.Schedule` | src/main.py:25-47 | every tier has at least one elite, fewer elites than members, at least one generation and a rate strictly between 0 and 1 |
| `Schedule.ScheduleByTier` | src/main.py:26-45 | the first-match if-chain equals the tier picked by counting how many of the bounds 10, 50, 100 the count lies strictly above |
| `Schedule.ScheduleBoundaries` | src/main.py:26-41 | 10, 50 and 100 stay in the lower tier and 11, 51 and 101 move up |
| `Schedule.ScheduleMonotone` | src/main.py:25-47 | population, generations, mutation rate and elites never decrease as the city count grows |
| `Tour.OpenLength` | src/main.py:66-68 | the sum of consecutive edges is non-negative under a non-negative distance |
| `Tour.TourLength` | src/main.py:66-69 | the value `calculate_fitness` returns for a non-empty path: non-negative under a non-negative distance, and `dist(c, c)` for a one-city path |
| `Tour.Fitness` | src/main.py:65-70 | fails with `IndexError` exactly for the empty path; otherwise non-negative under a non-negative distance |
| `Tour.TourLengthRotation` | src/main.py:65-70 | the closed tour length is the same for every rotation of the path, so it does not depend on the starting city |
| `Tour.TourLengthReverse` | src/main.py:65-70 | under a symmetric distance a tour and its reverse have the same length |
| `Tour.TwoCityTour` | src/main.py:65-70 | a two-city path costs the out-and-back distance |
| `Ranking.Insert` | src/main.py:79 | inserting into a sorted list keeps it sorted and adds exactly that entry |
| `Ranking.InsertKeepsStrictRank` | src/main.py:79 | inserting an entry whose index is below all others keeps a list strictly ordered by fitness, then index |
| `Ranking.SortByFitness` | src/main.py:79 | the result is sorted by fitness and is a permutation of the input |
| `Ranking.Entries` | src/main.py:75-78 | one entry per path, in index order, each carrying its path's tour length |
| `Ranking.Rank` | src/main.py:74-80 | fails with `IndexError` exactly when some path is empty; otherwise sorted by fitness, one entry per path, each entry's fitness the tour length of the path it names |
| `Ranking.SortIsStable` | src/main.py:79 | sorting entries listed by index orders ties by index |
| `Ranking.RankIsStableSort` | src/main.py:74-80 | the rank list names every path exactly once and orders ties by index |
| `Ranking.RankHeadIsMinimum` | src/main.py:74-80 | the head of the rank list is no longer than any path of the population |
| `Selection.PrefixSum` | src/main.py:91-93 | the running sum of the roulette loop: 0 before the first entry, non-negative while the fitnesses are |
| `Selection.Total` | src/main.py:86-88 | `total_fitness`: 0 for an empty rank list, non-negative for non-negative fitnesses |
| `Selection.SpinFrom` | src/main.py:92-96 | the chosen entry is the first one from the start position whose running sum exceeds the draw; no choice means no running sum does |
| `Selection.Spin` | src/main.py:91-96 | the chosen entry is the first whose running sum exceeds the draw; no choice means none does |
| `Selection.SpinSegment` | src/main.py:89-96 | with non-negative weights, entry k is chosen exactly when the draw falls in the half-open segment [sum of the first k, sum of the first k+1) |
| `Selection.SpinHits` | src/main.py:89-96 | a draw in [0, total) always selects an entry |
| `Selection.ZeroWeightNeverChosen` | src/main.py:92-96 | an entry of fitness zero is never selected |
| `Selection.PoolFrom` | src/main.py:89-96 | the picks from a position on are members of the population; they fail only on a rank index past the population |
| `Selection.MatingPool` | src/main.py:84-97 | at most one parent per member, each a member of the population; `IndexError` only from a rank index past the population |
| `Selection.MatingPoolFull` | src/main.py:84-97 | with every draw in [0, total) the pool has one parent per member, the t-th being the path the t-th spin lands on |
| `Selection.MatingPoolEmpty` | src/main.py:84-97 | when no draw is below the total, as when the total is zero, the pool is empty |
| `Crossover.Seed` | src/main.py:101-106 | the child before the fill has `parent1`'s length |
| `Crossover.SeedSlots` | src/main.py:101-106 | the seeded child holds `parent1`'s city in exactly the window slots and `None` in every other slot |
| `Crossover.Skip` | src/main.py:110-111 | the cursor stops at the first `parent2` city the child does not hold, or raises `IndexError` when every later city is held |
| `Crossover.Fill` | src/main.py:107-113 | on success every slot from the start is set, set slots keep their value, and each filled slot holds a city of `parent2` |
| `Crossover.Crossover` | src/main.py:100-114 | a window past the end raises `IndexError`; on success the child has `parent1`'s length, its window is `parent1`'s, and every other slot holds a city of `parent2` |
| `Crossover.SkipFinds` | src/main.py:110-111 | when the child holds exactly the window's cities beyond the cursor, the cursor stops at the next city of `parent2` missing from the window |
| `Crossover.FillBuildsOrderChild` | src/main.py:107-113 | from any state that follows the fill order, the fill succeeds and produces the reference child slot by slot |
| `Crossover.CrossoverIsOrderChild` | src/main.py:100-114 | for well-formed parents the crossover equals the independent reference `OrderChild` |
| `Crossover.OrderChildCounts` | src/main.py:100-114 | the reference child holds each city of `parent1` exactly as often as `parent1` does |
| `Crossover.OrderChildOutside` | src/main.py:107-113 | read around the window, the reference child is the cities of `parent2` missing from the window, in `parent2`'s order |
| `Crossover.OrderChildProperties` | src/main.py:100-114 | the reference child is a permutation of `parent1` without repeats, keeps the window, and its other slots read left to right are the cities of `parent2` missing from the window, in `parent2`'s order |
| `Crossover.CrossoverCorrect` | src/main.py:100-114 | the cursor never overruns; the child is a permutation of `parent1` without repeats; the window is kept; the fill order is as for the reference |
| `Crossover.CrossoverExample` | src/main.py:100-114 | window [1, 2] of 0-1-2-3 crossed with 3-2-1-0 gives 3-1-2-0 |
| `Mutation.RandInt` | src/main.py:119-120 | `ValueError` exactly for an empty range; otherwise a value of the range |
| `Mutation.RandIntReaches` | src/main.py:119-120 | every value of a non-empty range is the result of some pick |
| `Mutation.Picks` | src/main.py:119-120 | fewer than two cities raise `ValueError`; otherwise `start < end` and both index the path |
| `Mutation.PicksCover` | src/main.py:119-120 | every segment of at least two cities is picked by some draw |
| `Mutation.ReverseSegment` | src/main.py:121 | positions outside the segment are unchanged, position j inside receives the city at `start + end - j`, and the multiset of cities is kept |
| `Mutation.Mutate` | src/main.py:117-123 | without the coin the path is returned unchanged; with it, `ValueError` exactly for fewer than two cities, otherwise the path with one segment of at least two cities reversed; the multiset is kept |
| `Mutation.ReverseSegmentTwice` | src/main.py:121 | reversing the same segment twice is the identity |
| `Mutation.MutateCoversEveryReversal` | src/main.py:117-123 | every reversal of a segment of at least two cities is what some firing draw performs |
| `Mutation.MutateTwiceIsIdentity` | src/main.py:117-123 | a mutation undone by the same draw gives the path back |
| `Mutation.WholeReversal` | src/main.py:121 | reversing from the first to the last city is the plain reversal |
| `Generation.Elites` | src/main.py:130-131 | succeeds exactly when the first `elites` rank entries exist and point into the population, and then yields those paths unchanged, in rank order |
| `Generation.ChildCount` | src/main.py:133 | the number of indices `range(i, m, 2)` visits is the ceiling of (m - i) / 2, and 0 when i >= m |
| `Base.ModIsRemainder` | src/main.py:135 | the remainder by repeated subtraction is Python's `%` on a non-negative index, with a quotient that rebuilds the index |
| `Generation.Wrap` | src/main.py:134-135 | the modulo lands in the pool, leaves an index below the pool size as it is, and maps the pool size to 0 |
| `Generation.WindowEnd` | src/main.py:136 | `len(parent1) // 2` is the floor of half the length, and lies in [1, len) for two or more cities |
| `Generation.BreedUsesDefaultRate` | src/main.py:137 | `mutate(child)` uses the default rate 0.1 of `mutate` (line 117): a coin at or above 0.1 leaves the crossover child unmutated, even when the scheduled rate (0.15 or 0.2) would fire |
| `Generation.Breed` | src/main.py:134-137 | breeding one child can raise only `IndexError` from the crossover or `ValueError` from the mutation |
| `Generation.Loop` | src/main.py:133-137 | the loop `for i in range(i, m, 2)` yields ceil((m - i) / 2) children when i < m and none otherwise, and an error is always the error of some pass between i and m |
| `Generation.LoopAt` | src/main.py:133-137 | for any breeding step, the t-th child of the loop is the one bred at index `i + 2t` |
| `Generation.LoopKeepsTours` | src/main.py:133-137 | a loop whose every pass breeds a tour of the cities succeeds and yields only such tours |
| `Generation.Children` | src/main.py:133-137 | the breeding loop over the pool yields ceil((m - i) / 2) children when i < m and none otherwise, and raises only `IndexError` or `ValueError` |
| `Generation.NextGeneration` | src/main.py:126-139 | too many elites raise `IndexError`; on success the size is `elites + ChildCount(m, elites)` for the pool size m: ceil((m - elites) / 2) children when m > elites, none otherwise, and the first `elites` paths are the ranked paths unchanged |
| `Generation.CallSiteWindowFits` | src/main.py:136 | the window `[1, len // 2]` never makes the copy loop index past the child |
| `Generation.ChildAt` | src/main.py:133-137 | the t-th child is the one bred at loop index `i + 2t`, with that index's mutation draw |
| `Generation.LastChildWraps` | src/main.py:133-135 | with an odd number of slots after the elites, the last child is bred at the last index and its second parent wraps to the first member of the pool |
| `Generation.GenerationSize` | src/main.py:126-139 | with every roulette draw in [0, total) the next population has `elites + ceil((len(pop) - elites) / 2)` members when len(pop) > elites, otherwise `elites` |
| `Generation.GenerationSizeExample` | src/main.py:133 | ten members with one, two or three elites give 6, 6 and 7 members |
| `Generation.TooManyElites` | src/main.py:130-131 | more elites than rank entries raise `IndexError` whatever the draws |
| `Generation.BestCarriedOver` | src/main.py:130-131 | with at least one elite, the first path of the next generation has the fitness at the head of the rank list |
| `Generation.PoolKeepsTours` | src/main.py:89-96 | the mating pool holds only members of the population, so tours stay tours |
| `Generation.BreedKeepsTour` | src/main.py:134-137 | from a pool of tours of at least two distinct cities, breeding succeeds and yields a tour of the same cities |
| `Generation.ChildrenKeepTours` | src/main.py:133-137 | the whole breeding loop succeeds and yields only tours of the cities |
| `Generation.BreedTourIfOk` | src/main.py:134-137 | for any number of distinct cities, a child that is bred without an exception is a tour of the cities |
| `Generation.LoopToursIfOk` | src/main.py:133-137 | a loop that succeeds, and whose successful passes breed tours, yields only tours |
| `Generation.ChildrenToursIfOk` | src/main.py:133-137 | a breeding loop over a pool of tours that succeeds yields only tours |
| `Generation.NextGenerationToursIfOk` | src/main.py:126-139 | for any number of distinct cities, a generation step that succeeds turns tours into tours |
| `Generation.NextGenerationKeepsTours` | src/main.py:126-139 | when every path is a tour of at least two distinct cities and the ranks are valid, the step succeeds and every new path is again such a tour |
| `Evolution.Swap` | src/main.py:54 | the two positions trade cities, the others keep theirs, and the multiset is kept |
| `Evolution.RandBelow` | src/main.py:54 | the swap partner is at or below the current position |
| `Evolution.ShuffleDown` | src/main.py:54 | the swaps keep the multiset of cities and never touch positions above the current one |
| `Evolution.Shuffle` | src/main.py:54 | a shuffled path is a tour of the original cities |
| `Evolution.ShuffleDownIdentity` | src/main.py:54 | when every swap partner is the position itself, the shuffle changes nothing |
| `Evolution.InitialPopulation` | src/main.py:50-56 | `size` paths, each a tour of the city list |
| `Evolution.Evolve` | src/main.py:149-151 | no generation leaves the state as it is; after at least one generation the last rank list is bound; failures are only `IndexError` or `ValueError` |
| `Evolution.Report` | src/main.py:154-155 | an unbound rank list raises `NameError`; it fails exactly when the rank list is unbound or empty or the population is empty; the printed path is a member of the population |
| `Evolution.Run` | src/main.py:145-155 | the run never raises `NameError`, since the schedule always runs at least one generation |
| `Evolution.GenerationKeepsSteady` | src/main.py:149-151 | one generation keeps the loop invariant: at least the elites, all tours, and a first path whose length is the head of the last rank list |
| `Evolution.EvolveKeepsSteady` | src/main.py:149-151 | any number of generations succeeds and keeps the loop invariant |
| `Evolution.EvolveHead` | src/main.py:149-151 | for any cities, once at least one generation has run successfully, the first path is the first elite of the last rank list, so its tour length is that list's head fitness |
| `Evolution.RunHead` | src/main.py:145-155 | for any cities, including repeated or fewer than two, a run that finishes prints a fitness that is the tour length of the path it prints |
| `Evolution.RunReportsItsTour` | src/main.py:145-155 | for at least two distinct cities and any random values, the run succeeds, the printed path is a tour of all the cities, and the printed fitness is its tour length |

## Left out

- Reading and parsing the input file (src/main.py:5-22): this is I/O. The
  city count and the city list are inputs to `Evolution.Run`.
- Printing, including the three-decimal formatting of the fitness
  (src/main.py:153-156): this is I/O. `Evolution.Report` returns the values
  that would be printed.
- `math.sqrt` and the Euclidean distance (src/main.py:60-61): this is
  floating point. The distance is an arbitrary real-valued function.
- Floating-point rounding of `calculate_fitness`'s `total_distance`, of the
  roulette's running sums, and of the roulette draw:
  reals are exact here. A draw equal to the total is still representable,
  and it selects no parent, as in the program. `Tour.TourLengthRotation`,
  `Tour.TourLengthReverse` and the tie order of the rank list therefore hold
  for exact sums; float sums added in another order may differ in the last
  bits.
- The `random` module. Its values are inputs, so no property speaks of
  uniformity, of probabilities, or of convergence of the search.
- Evolution.Shuffle: states that the result is a permutation of the cities,
  not that every permutation is reachable or equally likely, because that is
  a probabilistic property of `random.shuffle`.
- Python's in-place list updates and aliasing. `crossover` builds a fresh
  child, `mutate` changes that child in place before it is stored, and
  `create_initial_population` shuffles a copy. So no aliasing can be
  observed, and pure functions on sequences model the lists exactly.
- Two behaviours of the code that a reader may not expect; the model
  follows the code:
  - Children are mutated at the default rate 0.1 of `mutate`, because the
    call `mutate(child)` passes no rate (src/main.py:117, 137). The scheduled
    rate is computed but never used.
  - The printed fitness comes from the rank list computed before the last
    transition, and the printed path is the first path after it. They still
    describe the same individual: the first elite is copied unchanged to
    position 0, and every tier has at least one elite. This holds for every
    run that finishes, whatever the cities (`Evolution.RunHead`); for two or
    more distinct cities every run finishes (`Evolution.RunReportsItsTour`).
- Other points the code settles implicitly:
  - Ties in fitness keep index order, because `list.sort` is stable.
  - The pool size `m` in the generation step is the length of the mating
    pool. It can be shorter than the population when a draw is not below any
    running sum.
