/** The driver (src/main.py, lines 50-56 and 142-156): shuffle the cities
    into the initial population, run the scheduled number of generations,
    and report the head of the last rank list with the first path of the
    final population. Reading the input file and printing are left out; the
    random values of every shuffle and every generation are inputs. */
module Evolution {
  import opened Base
  import opened Tour
  import opened Ranking
  import Schedule
  import opened Generation

  /** `x[i], x[j] = x[j], x[i]`. */
  function Swap(p: Path, i: nat, j: nat): (r: Path)
    requires i < |p| && j < |p|
    ensures |r| == |p| && r[i] == p[j] && r[j] == p[i]
    ensures forall k :: 0 <= k < |p| && k != i && k != j ==> r[k] == p[k]
    ensures multiset(r) == multiset(p)
  {
    p[i := p[j]][j := p[i]]
  }

  /** `randbelow(n)`: a value of [0, n) chosen by `pick`. */
  function RandBelow(n: nat, pick: nat): (r: nat)
    requires n > 0
    ensures r < n
    ensures pick < n ==> r == pick
  {
    Mod(pick, n)
  }

  /** The swaps of `random.shuffle` for positions `i` down to 1: position
      `i` trades places with a position at or below it. */
  function ShuffleDown(p: Path, i: nat, picks: nat -> nat): (r: Path)
    requires i < |p|
    decreases i
    ensures |r| == |p|
    ensures multiset(r) == multiset(p)
    ensures forall k :: i < k < |p| ==> r[k] == p[k]
  {
    if i == 0 then p
    else ShuffleDown(Swap(p, i, RandBelow(i + 1, picks(i))), i - 1, picks)
  }

  /** `random.shuffle(path)` on a copy of the cities. */
  function Shuffle(p: Path, picks: nat -> nat): (r: Path)
    ensures IsTourOf(r, p)
  {
    if |p| == 0 then p else ShuffleDown(p, |p| - 1, picks)
  }

  /** `create_initial_population(size, cities)`: `size` shuffles of the
      cities, the k-th driven by `shuffles(k)`. */
  function InitialPopulation(size: nat, cities: Path, shuffles: nat -> nat -> nat): (r: seq<Path>)
    ensures |r| == size
    ensures AllTours(r, cities)
  {
    var r := seq(size, k requires 0 <= k < size => Shuffle(cities, shuffles(k)));
    assert forall k :: 0 <= k < size ==> IsTourOf(r[k], cities) by {
      forall k | 0 <= k < size ensures IsTourOf(r[k], cities) {
        assert r[k] == Shuffle(cities, shuffles(k));
      }
    }
    r
  }

  /** Swapping a position with itself changes nothing. */
  lemma SwapSelf(p: Path, i: nat, j: nat)
    requires i < |p| && j == i
    ensures Swap(p, i, j) == p
  {
  }

  /** A shuffle whose every swap is with itself leaves the path as it is. */
  lemma {:induction false} ShuffleDownIdentity(p: Path, i: nat, picks: nat -> nat)
    requires i < |p|
    requires forall k :: 0 < k <= i ==> picks(k) == k
    ensures ShuffleDown(p, i, picks) == p
    decreases i
  {
    if i == 0 {
      assert ShuffleDown(p, i, picks) == p;
    } else {
      SwapSelf(p, i, RandBelow(i + 1, picks(i)));
      ShuffleDownIdentity(p, i - 1, picks);
    }
  }

  /** The state of the main loop: the population and the rank list of the
      last generation (`rank_list`), unbound before the first one runs. */
  datatype State = State(population: seq<Path>, lastRanks: Option<seq<RankEntry>>)

  /** The main loop from generation `g` on: rank the population, then
      replace it with the next generation, drawing the generation's random
      values from `draws(g)`. */
  function Evolve(st: State, g: nat, total: nat, elites: nat, dist: Distance, draws: nat -> Draws): (r: Result<State>)
    decreases total - g
    ensures total <= g ==> r == Ok(st)
    ensures r.Ok? && g < total ==> r.value.lastRanks.Some?
    ensures r.Err? ==> r.error == IndexError || r.error == ValueError
  {
    if total <= g then Ok(st)
    else
      match Rank(st.population, dist)
      case Err(err) => Err(err)
      case Ok(ranks) =>
        match NextGeneration(st.population, ranks, elites, draws(g))
        case Err(err) => Err(err)
        case Ok(next) => Evolve(State(next, Some(ranks)), g + 1, total, elites, dist, draws)
  }

  /** The output: `rank_list[0][1]` and then `population[0]`. With no
      generation run `rank_list` is unbound; an empty list raises. */
  function Report(st: State): (r: Result<(real, Path)>)
    ensures st.lastRanks.None? ==> r == Err(NameError)
    ensures r.Err? <==> st.lastRanks.None? || |st.lastRanks.value| == 0 || |st.population| == 0
    ensures r.Ok? ==> r.value.1 in st.population
  {
    match st.lastRanks
    case None => Err(NameError)
    case Some(ranks) =>
      if |ranks| == 0 || |st.population| == 0 then Err(IndexError)
      else Ok((ranks[0].fitness, st.population[0]))
  }

  /** The whole program after the input has been read: `numCities` is the
      count on the first line, `cities` the coordinates of the rest. */
  function Run(numCities: int, cities: Path, dist: Distance, shuffles: nat -> nat -> nat, draws: nat -> Draws): (r: Result<(real, Path)>)
    ensures r.Err? ==> r.error != NameError
  {
    var params := Schedule.Schedule(numCities);
    var pop := InitialPopulation(params.populationSize, cities, shuffles);
    match Evolve(State(pop, None), 0, params.generations, params.elites, dist, draws)
    case Err(err) => Err(err)
    case Ok(last) =>
      // the schedule always runs a generation, so `rank_list` is bound
      assert last.lastRanks.Some?;
      Report(last)
  }

  /** A tour of some cities is as long as the list of cities. */
  lemma TourSize(p: Path, cities: Path)
    requires IsTourOf(p, cities)
    ensures |p| == |cities|
  {
    assert |multiset(p)| == |multiset(cities)|;
  }

  /** What the main loop keeps: at least the elites, all tours of the
      cities, and, once a generation has run, a first path whose tour length
      is the head of the last rank list. */
  ghost predicate Steady(st: State, cities: Path, elites: nat, dist: Distance) {
    1 <= elites <= |st.population| && AllTours(st.population, cities)
    && |st.population[0]| > 0
    && (st.lastRanks.Some? ==>
          |st.lastRanks.value| > 0 && TourLength(st.population[0], dist) == st.lastRanks.value[0].fitness)
  }

  /** One generation keeps the loop steady. */
  lemma GenerationKeepsSteady(st: State, elites: nat, dist: Distance, draws: Draws, cities: Path)
    requires Distinct(cities) && |cities| >= 2 && Steady(st, cities, elites, dist)
    ensures Rank(st.population, dist).Ok?
    ensures NextGeneration(st.population, Rank(st.population, dist).value, elites, draws).Ok?
    ensures Steady(State(NextGeneration(st.population, Rank(st.population, dist).value, elites, draws).value,
                         Some(Rank(st.population, dist).value)), cities, elites, dist)
  {
    var pop := st.population;
    forall i | 0 <= i < |pop| ensures |pop[i]| > 0 {
      TourSize(pop[i], cities);
    }
    var ranks := Rank(pop, dist).value;
    NextGenerationKeepsTours(pop, ranks, elites, draws, cities);
    BestCarriedOver(pop, dist, elites, draws);
    var next := NextGeneration(pop, ranks, elites, draws).value;
    TourSize(next[0], cities);
  }

  lemma {:induction false} EvolveKeepsSteady(st: State, g: nat, total: nat, elites: nat, dist: Distance, draws: nat -> Draws, cities: Path)
    requires Distinct(cities) && |cities| >= 2 && Steady(st, cities, elites, dist)
    ensures Evolve(st, g, total, elites, dist, draws).Ok?
    ensures Steady(Evolve(st, g, total, elites, dist, draws).value, cities, elites, dist)
    decreases total - g
  {
    if g < total {
      GenerationKeepsSteady(st, elites, dist, draws(g), cities);
      var ranks := Rank(st.population, dist).value;
      var next := NextGeneration(st.population, ranks, elites, draws(g)).value;
      EvolveKeepsSteady(State(next, Some(ranks)), g + 1, total, elites, dist, draws, cities);
    }
  }

  /** Whatever the cities, once a generation has run successfully, the
      first path is the first elite of the last rank list: its tour length
      is that list's head fitness. */
  lemma {:induction false} EvolveHead(st: State, g: nat, total: nat, elites: nat, dist: Distance, draws: nat -> Draws)
    requires g < total && elites >= 1
    ensures Evolve(st, g, total, elites, dist, draws).Ok? ==>
      var last := Evolve(st, g, total, elites, dist, draws).value;
      |last.population| > 0 && |last.lastRanks.value| > 0 &&
      Fitness(last.population[0], dist) == Ok(last.lastRanks.value[0].fitness)
    decreases total - g
  {
    if Evolve(st, g, total, elites, dist, draws).Ok? {
      var ranks := Rank(st.population, dist).value;
      var next := NextGeneration(st.population, ranks, elites, draws(g)).value;
      if g + 1 < total {
        EvolveHead(State(next, Some(ranks)), g + 1, total, elites, dist, draws);
      } else {
        BestCarriedOver(st.population, dist, elites, draws(g));
      }
    }
  }

  /** For any cities, a run that finishes prints a fitness that is the tour
      length of the path it prints. */
  lemma RunHead(numCities: int, cities: Path, dist: Distance, shuffles: nat -> nat -> nat, draws: nat -> Draws)
    ensures Run(numCities, cities, dist, shuffles, draws).Ok? ==>
      Fitness(Run(numCities, cities, dist, shuffles, draws).value.1, dist) ==
        Ok(Run(numCities, cities, dist, shuffles, draws).value.0)
  {
    var params := Schedule.Schedule(numCities);
    var pop := InitialPopulation(params.populationSize, cities, shuffles);
    EvolveHead(State(pop, None), 0, params.generations, params.elites, dist, draws);
  }

  /** The end-to-end promise: for distinct cities (at least two) and any
      random values, the program finishes, prints a path that visits every
      city once, and the fitness it prints is that path's tour length. */
  lemma RunReportsItsTour(numCities: int, cities: Path, dist: Distance, shuffles: nat -> nat -> nat, draws: nat -> Draws)
    requires Distinct(cities) && |cities| >= 2
    ensures Run(numCities, cities, dist, shuffles, draws).Ok?
    ensures IsTourOf(Run(numCities, cities, dist, shuffles, draws).value.1, cities)
    ensures Fitness(Run(numCities, cities, dist, shuffles, draws).value.1, dist) ==
      Ok(Run(numCities, cities, dist, shuffles, draws).value.0)
  {
    var params := Schedule.Schedule(numCities);
    var pop := InitialPopulation(params.populationSize, cities, shuffles);
    TourSize(pop[0], cities);
    var st := State(pop, None);
    assert Steady(st, cities, params.elites, dist);
    EvolveKeepsSteady(st, 0, params.generations, params.elites, dist, draws, cities);
    var last := Evolve(st, 0, params.generations, params.elites, dist, draws).value;
    assert last.population[0] in last.population;
  }
}
