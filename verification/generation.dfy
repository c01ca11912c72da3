/** The generation step (src/main.py, lines 126-139): select a mating pool,
    carry the elites over unchanged, then breed one mutated child from each
    pair of consecutive pool members after the elites. */
module Generation {
  import opened Base
  import opened Tour
  import opened Ranking
  import opened Selection
  import Crossover
  import opened Mutation

  /** `next_generation` calls `mutate(child)` without a rate, so every child
      meets the default of `mutate`, not the rate of the schedule. */
  const DefaultMutationRate: real := 0.1

  /** The random values one generation consumes: the roulette draws of the
      pool, and the mutation draw of the child bred at each loop index. */
  datatype Draws = Draws(roulette: nat -> real, mutation: nat -> MutationDraw)

  /** The first `count` entries of the rank list point at paths of the population. */
  predicate ElitesFit(pop: seq<Path>, ranks: seq<RankEntry>, count: nat) {
    count <= |ranks| && forall k :: 0 <= k < count ==> ranks[k].index < |pop|
  }

  /** The elite loop: the paths of the first `count` rank entries, in rank order. */
  function Elites(pop: seq<Path>, ranks: seq<RankEntry>, count: nat): (r: Result<seq<Path>>)
    ensures r.Ok? <==> ElitesFit(pop, ranks, count)
    ensures r.Err? ==> r.error == IndexError
    ensures r.Ok? ==> |r.value| == count
    ensures r.Ok? ==> forall k :: 0 <= k < count ==> r.value[k] == pop[ranks[k].index]
  {
    if !ElitesFit(pop, ranks, count) then Err(IndexError)
    else Ok(seq(count, k requires 0 <= k < count => pop[ranks[k].index]))
  }

  /** How many indices `range(i, m, 2)` visits: the ceiling of (m - i) / 2
      when i < m, and none otherwise. */
  function ChildCount(m: nat, i: nat): (k: nat)
    decreases m - i
    ensures i < m ==> m - i <= 2 * k <= m - i + 1
    ensures m <= i ==> k == 0
  {
    if i < m then 1 + ChildCount(m, i + 2) else 0
  }

  /** Python's `i % m` on the non-negative indices of the breeding loop. */
  function Wrap(i: nat, m: nat): (r: nat)
    requires m > 0
    ensures r < m
    ensures i < m ==> r == i
    ensures i == m ==> r == 0
  {
    Mod(i, m)
  }

  /** The crossover window of the call site: start 1, end `len(parent1) // 2`. */
  function WindowEnd(p1: Path): (r: nat)
    ensures 2 * r <= |p1| <= 2 * r + 1
    ensures |p1| >= 2 ==> 1 <= r < |p1|
  {
    |p1| / 2
  }

  /** One pass of the breeding loop at index `i`: the order crossover of the
      pool members at `i` and `i + 1`, the modulo wrapping the second parent
      around to the front of the pool, then mutated at the default rate. */
  function Breed(pool: seq<Path>, i: nat, draw: MutationDraw): (r: Result<Path>)
    requires i < |pool|
    ensures r.Err? ==> r.error == IndexError || r.error == ValueError
  {
    var p1 := pool[Wrap(i, |pool|)];
    var p2 := pool[Wrap(i + 1, |pool|)];
    match Crossover.Crossover(p1, p2, 1, WindowEnd(p1))
    case Err(err) => Err(err)
    case Ok(child) => Mutate(child, DefaultMutationRate, draw)
  }

  /** Every path of `pop` visits exactly the cities of `cities`. */
  predicate AllTours(pop: seq<Path>, cities: Path) {
    forall k :: 0 <= k < |pop| ==> IsTourOf(pop[k], cities)
  }

  /** The breeding loop `for i in range(i, m, 2)`, whatever each pass does:
      `breed(k)` is the child bred at index `k`, and the first error ends
      the loop. */
  function Loop(m: nat, i: nat, breed: nat -> Result<Path>): (r: Result<seq<Path>>)
    decreases m - i
    ensures r.Ok? ==> |r.value| == ChildCount(m, i)
    ensures r.Err? ==> exists k :: i <= k < m && breed(k) == Err(r.error)
  {
    if i >= m then Ok([])
    else
      match breed(i)
      case Err(err) => Err(err)
      case Ok(child) =>
        match Loop(m, i + 2, breed)
        case Err(err) => Err(err)
        case Ok(rest) => Ok([child] + rest)
  }

  /** The t-th child of the loop is the one bred at index `i + 2t`. */
  lemma {:induction false} LoopAt(m: nat, i: nat, breed: nat -> Result<Path>, t: nat)
    requires Loop(m, i, breed).Ok? && t < ChildCount(m, i)
    ensures i + 2 * t < m
    ensures breed(i + 2 * t) == Ok(Loop(m, i, breed).value[t])
    decreases m - i
  {
    if t > 0 {
      LoopAt(m, i + 2, breed, t - 1);
      assert (i + 2) + 2 * (t - 1) == i + 2 * t;
    }
  }

  /** A loop whose every pass breeds a tour of `cities` succeeds and yields
      only such tours. */
  lemma {:induction false} LoopKeepsTours(m: nat, i: nat, breed: nat -> Result<Path>, cities: Path)
    requires forall k :: i <= k < m ==> breed(k).Ok? && IsTourOf(breed(k).value, cities)
    ensures Loop(m, i, breed).Ok?
    ensures AllTours(Loop(m, i, breed).value, cities)
    decreases m - i
  {
    if i < m {
      LoopKeepsTours(m, i + 2, breed, cities);
      var rest := Loop(m, i + 2, breed).value;
      assert Loop(m, i, breed).value == [breed(i).value] + rest;
    }
  }

  /** A loop that succeeds yields only tours when every pass that succeeds
      breeds one. */
  lemma {:induction false} LoopToursIfOk(m: nat, i: nat, breed: nat -> Result<Path>, cities: Path)
    requires forall k :: i <= k < m && breed(k).Ok? ==> IsTourOf(breed(k).value, cities)
    requires Loop(m, i, breed).Ok?
    ensures AllTours(Loop(m, i, breed).value, cities)
    decreases m - i
  {
    if i < m {
      LoopToursIfOk(m, i + 2, breed, cities);
      var rest := Loop(m, i + 2, breed).value;
      assert Loop(m, i, breed).value == [breed(i).value] + rest;
    }
  }

  /** The pass of the breeding loop at index `k` over `pool`. */
  function Breeder(pool: seq<Path>, draws: nat -> MutationDraw): nat -> Result<Path> {
    (k: nat) => if k < |pool| then Breed(pool, k, draws(k)) else Err(IndexError)
  }

  /** The breeding loop from index `i` on, stepping by two. */
  function Children(pool: seq<Path>, i: nat, draws: nat -> MutationDraw): (r: Result<seq<Path>>)
    ensures r.Ok? ==> |r.value| == ChildCount(|pool|, i)
    ensures r.Err? ==> r.error == IndexError || r.error == ValueError
  {
    var r := Loop(|pool|, i, Breeder(pool, draws));
    assert r.Err? ==> r.error == IndexError || r.error == ValueError by {
      if r.Err? {
        var k :| i <= k < |pool| && Breeder(pool, draws)(k) == Err(r.error);
        var b := Breed(pool, k, draws(k));
        assert b == Err(r.error);
      }
    }
    r
  }

  /** `next_generation(current_population, ranks, elites)`: the elites
      followed by the children of the pool members after them. */
  function NextGeneration(pop: seq<Path>, ranks: seq<RankEntry>, elites: nat, draws: Draws): (r: Result<seq<Path>>)
    ensures !ElitesFit(pop, ranks, elites) ==> r == Err(IndexError)
    ensures r.Err? ==> r.error == IndexError || r.error == ValueError
    ensures r.Ok? ==> MatingPool(pop, ranks, draws.roulette).Ok?
    ensures r.Ok? ==> |r.value| == elites + ChildCount(|MatingPool(pop, ranks, draws.roulette).value|, elites)
    ensures r.Ok? ==> forall k :: 0 <= k < elites ==> r.value[k] == pop[ranks[k].index]
  {
    var pool :- MatingPool(pop, ranks, draws.roulette);
    var es :- Elites(pop, ranks, elites);
    var cs :- Children(pool, elites, draws.mutation);
    Ok(es + cs)
  }

  /** The call-site window always fits: `len(parent1) // 2` is below the
      length of any non-empty parent, and an empty parent makes the copy loop empty. */
  lemma CallSiteWindowFits(p1: Path)
    ensures Crossover.ValidWindow(|p1|, 1, WindowEnd(p1))
  {
  }

  /** The t-th child is the one bred at loop index `i + 2t`, with the
      mutation draw of that index. */
  lemma ChildAt(pool: seq<Path>, i: nat, draws: nat -> MutationDraw, t: nat)
    requires Children(pool, i, draws).Ok?
    requires t < ChildCount(|pool|, i)
    ensures i + 2 * t < |pool|
    ensures Breed(pool, i + 2 * t, draws(i + 2 * t)) == Ok(Children(pool, i, draws).value[t])
  {
    LoopAt(|pool|, i, Breeder(pool, draws), t);
  }

  /** When an odd number of pool members follow index `i`, the last child
      is bred at the last index and its second parent wraps around to the
      first member of the pool. */
  lemma LastChildWraps(pool: seq<Path>, i: nat, draws: nat -> MutationDraw)
    requires Children(pool, i, draws).Ok?
    requires i < |pool| && (|pool| - i) % 2 == 1
    ensures ChildCount(|pool|, i) >= 1
    ensures Breed(pool, |pool| - 1, draws(|pool| - 1)) ==
      Ok(Children(pool, i, draws).value[ChildCount(|pool|, i) - 1])
    ensures Wrap(|pool|, |pool|) == 0
  {
    var t := ChildCount(|pool|, i) - 1;
    ChildAt(pool, i, draws, t);
  }

  /** The size promise: with every roulette draw in [0, total) the pool is
      as large as the population, and the next generation holds the elites
      plus ceil((m - elites) / 2) children when m > elites (none otherwise),
      m the population size. */
  lemma GenerationSize(pop: seq<Path>, ranks: seq<RankEntry>, elites: nat, draws: Draws)
    requires NextGeneration(pop, ranks, elites, draws).Ok?
    requires forall j :: 0 <= j < |ranks| ==> ranks[j].index < |pop|
    requires forall t :: 0 <= t < |pop| ==> 0.0 <= draws.roulette(t) < Total(ranks)
    ensures |NextGeneration(pop, ranks, elites, draws).value| == elites + ChildCount(|pop|, elites)
  {
    MatingPoolFull(pop, ranks, draws.roulette);
    var pool := MatingPool(pop, ranks, draws.roulette).value;
    assert |pool| == |pop|;
  }

  /** Ten members with one elite give the elite plus five children. */
  lemma GenerationSizeExample()
    ensures 1 + ChildCount(10, 1) == 6
    ensures 2 + ChildCount(10, 2) == 6
    ensures 3 + ChildCount(10, 3) == 7
  {
  }

  /** More elites than rank entries raise `IndexError` whatever the draws. */
  lemma TooManyElites(pop: seq<Path>, ranks: seq<RankEntry>, elites: nat, draws: Draws)
    requires elites > |ranks|
    ensures NextGeneration(pop, ranks, elites, draws) == Err(IndexError)
  {
  }

  /** With at least one elite, the first member of the next generation is
      the fittest path of the current one: its fitness is the head of the
      rank list. */
  lemma BestCarriedOver(pop: seq<Path>, dist: Distance, elites: nat, draws: Draws)
    requires Rank(pop, dist).Ok? && elites >= 1
    requires NextGeneration(pop, Rank(pop, dist).value, elites, draws).Ok?
    ensures |NextGeneration(pop, Rank(pop, dist).value, elites, draws).value| > 0
    ensures Fitness(NextGeneration(pop, Rank(pop, dist).value, elites, draws).value[0], dist) ==
      Ok(Rank(pop, dist).value[0].fitness)
  {
    var ranks := Rank(pop, dist).value;
    var next := NextGeneration(pop, ranks, elites, draws).value;
    assert next[0] == pop[ranks[0].index];
  }

  /** Whatever the number of cities, a child that is bred at all is a tour
      of the cities of its parents. */
  lemma BreedTourIfOk(pool: seq<Path>, i: nat, draw: MutationDraw, cities: Path)
    requires Distinct(cities) && AllTours(pool, cities)
    requires i < |pool| && Breed(pool, i, draw).Ok?
    ensures IsTourOf(Breed(pool, i, draw).value, cities)
  {
    var p1 := pool[Wrap(i, |pool|)];
    var p2 := pool[Wrap(i + 1, |pool|)];
    DistinctByMultiset(cities, p1);
    assert |p1| == |cities| by {
      assert |multiset(p1)| == |multiset(cities)|;
    }
    Crossover.CrossoverCorrect(p1, p2, 1, WindowEnd(p1));
  }

  /** The breeding loop mutates at the default rate whatever the schedule
      says: a coin at or above 0.1, even one below the scheduled rate 0.15
      or 0.2, leaves the crossover child as it is. */
  lemma BreedUsesDefaultRate(pool: seq<Path>, i: nat, draw: MutationDraw)
    requires i < |pool| && DefaultMutationRate <= draw.coin
    ensures Breed(pool, i, draw) ==
      Crossover.Crossover(pool[i], pool[Wrap(i + 1, |pool|)], 1, WindowEnd(pool[i]))
  {
  }

  /** Breeding from a pool of tours of distinct cities gives a tour of the
      same cities: the parents are well formed for the crossover, and the
      child is long enough for the mutation never to raise. */
  lemma BreedKeepsTour(pool: seq<Path>, i: nat, draw: MutationDraw, cities: Path)
    requires Distinct(cities) && |cities| >= 2 && AllTours(pool, cities)
    requires i < |pool|
    ensures Breed(pool, i, draw).Ok?
    ensures IsTourOf(Breed(pool, i, draw).value, cities)
  {
    var p1 := pool[Wrap(i, |pool|)];
    var p2 := pool[Wrap(i + 1, |pool|)];
    DistinctByMultiset(cities, p1);
    assert |p1| == |cities| by {
      assert |multiset(p1)| == |multiset(cities)|;
    }
    Crossover.CrossoverCorrect(p1, p2, 1, WindowEnd(p1));
  }

  /** Breeding from a pool of tours of distinct cities succeeds and gives
      only tours of the same cities. */
  lemma ChildrenKeepTours(pool: seq<Path>, i: nat, draws: nat -> MutationDraw, cities: Path)
    requires Distinct(cities) && |cities| >= 2 && AllTours(pool, cities)
    ensures Children(pool, i, draws).Ok?
    ensures AllTours(Children(pool, i, draws).value, cities)
  {
    var breed := Breeder(pool, draws);
    forall k | i <= k < |pool| ensures breed(k).Ok? && IsTourOf(breed(k).value, cities) {
      BreedKeepsTour(pool, k, draws(k), cities);
    }
    LoopKeepsTours(|pool|, i, breed, cities);
  }

  /** The mating pool only holds members of the population. */
  lemma PoolKeepsTours(pop: seq<Path>, ranks: seq<RankEntry>, roulette: nat -> real, cities: Path)
    requires AllTours(pop, cities) && MatingPool(pop, ranks, roulette).Ok?
    ensures AllTours(MatingPool(pop, ranks, roulette).value, cities)
  {
    var pool := MatingPool(pop, ranks, roulette).value;
    forall k | 0 <= k < |pool| ensures IsTourOf(pool[k], cities) {
      assert pool[k] in pop;
    }
  }

  /** Tours of the same cities stay so when two lists are joined. */
  lemma ToursConcat(a: seq<Path>, b: seq<Path>, cities: Path)
    requires AllTours(a, cities) && AllTours(b, cities)
    ensures AllTours(a + b, cities)
  {
    forall k | 0 <= k < |a + b| ensures IsTourOf((a + b)[k], cities) {
      if k >= |a| {
        assert (a + b)[k] == b[k - |a|];
      }
    }
  }

  /** The breeding loop over a pool of tours, when it succeeds, yields only tours. */
  lemma ChildrenToursIfOk(pool: seq<Path>, i: nat, draws: nat -> MutationDraw, cities: Path)
    requires Distinct(cities) && AllTours(pool, cities)
    requires Children(pool, i, draws).Ok?
    ensures AllTours(Children(pool, i, draws).value, cities)
  {
    var breed := Breeder(pool, draws);
    forall k | i <= k < |pool| && breed(k).Ok? ensures IsTourOf(breed(k).value, cities) {
      BreedTourIfOk(pool, k, draws(k), cities);
    }
    LoopToursIfOk(|pool|, i, breed, cities);
  }

  /** The permutation invariant for any number of cities: a generation step
      that succeeds gives only tours of the cities. With fewer than two
      cities a firing mutation raises, so success is a hypothesis here. */
  lemma NextGenerationToursIfOk(pop: seq<Path>, ranks: seq<RankEntry>, elites: nat, draws: Draws, cities: Path)
    requires Distinct(cities) && AllTours(pop, cities)
    requires NextGeneration(pop, ranks, elites, draws).Ok?
    ensures AllTours(NextGeneration(pop, ranks, elites, draws).value, cities)
  {
    var pool := MatingPool(pop, ranks, draws.roulette).value;
    PoolKeepsTours(pop, ranks, draws.roulette, cities);
    var es := Elites(pop, ranks, elites).value;
    var cs := Children(pool, elites, draws.mutation).value;
    ChildrenToursIfOk(pool, elites, draws.mutation, cities);
    assert AllTours(es, cities);
    ToursConcat(es, cs, cities);
  }

  /** The permutation invariant: when every path is a tour of the same
      distinct cities (at least two, so no mutation raises) and the elites
      fit, the generation step succeeds and every new path is again such a tour. */
  lemma NextGenerationKeepsTours(pop: seq<Path>, ranks: seq<RankEntry>, elites: nat, draws: Draws, cities: Path)
    requires Distinct(cities) && |cities| >= 2 && AllTours(pop, cities)
    requires forall k :: 0 <= k < |ranks| ==> ranks[k].index < |pop|
    requires elites <= |ranks|
    ensures NextGeneration(pop, ranks, elites, draws).Ok?
    ensures AllTours(NextGeneration(pop, ranks, elites, draws).value, cities)
  {
    var pool := MatingPool(pop, ranks, draws.roulette).value;
    PoolKeepsTours(pop, ranks, draws.roulette, cities);
    ChildrenKeepTours(pool, elites, draws.mutation, cities);
    var es := Elites(pop, ranks, elites).value;
    var cs := Children(pool, elites, draws.mutation).value;
    assert AllTours(es, cities);
    ToursConcat(es, cs, cities);
  }
}
