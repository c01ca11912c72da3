/** The selector: roulette-wheel sampling with replacement over the rank
    list, weighting every entry by its raw fitness (src/main.py, lines 83-97).
    The uniform draws are inputs: `roulette(k)` is the value
    `random.uniform(0, total_fitness)` returned on the k-th pick. */
module Selection {
  import opened Base
  import opened Ranking

  /** The running sum of the first `k` fitnesses of the rank list. */
  function PrefixSum(ranks: seq<RankEntry>, k: nat): (r: real)
    requires k <= |ranks|
    ensures k == 0 ==> r == 0.0
    ensures (forall j :: 0 <= j < k ==> ranks[j].fitness >= 0.0) ==> r >= 0.0
  {
    if k == 0 then 0.0 else PrefixSum(ranks, k - 1) + ranks[k - 1].fitness
  }

  /** `total_fitness`: the whole wheel. */
  function Total(ranks: seq<RankEntry>): (r: real)
    ensures |ranks| == 0 ==> r == 0.0
    ensures NonNegativeWeights(ranks) ==> r >= 0.0
  {
    PrefixSum(ranks, |ranks|)
  }

  ghost predicate NonNegativeWeights(ranks: seq<RankEntry>) {
    forall k :: 0 <= k < |ranks| ==> ranks[k].fitness >= 0.0
  }

  /** The inner loop from entry `k` on, with `sum` the running sum so far. */
  function SpinFrom(ranks: seq<RankEntry>, draw: real, k: nat, sum: real): (r: Option<nat>)
    requires k <= |ranks| && sum == PrefixSum(ranks, k)
    decreases |ranks| - k
    ensures r.Some? ==> k <= r.value < |ranks| && PrefixSum(ranks, r.value + 1) > draw
    ensures r.Some? ==> forall j :: k < j <= r.value ==> PrefixSum(ranks, j) <= draw
    ensures r.None? ==> forall j :: k < j <= |ranks| ==> PrefixSum(ranks, j) <= draw
  {
    if k == |ranks| then None
    else if sum + ranks[k].fitness > draw then Some(k)
    else SpinFrom(ranks, draw, k + 1, sum + ranks[k].fitness)
  }

  /** One spin of the wheel: the first entry whose running sum exceeds the
      draw, or nothing when no running sum does (the loop ends without `break`). */
  function Spin(ranks: seq<RankEntry>, draw: real): (r: Option<nat>)
    ensures r.Some? ==> r.value < |ranks| && PrefixSum(ranks, r.value + 1) > draw
    ensures r.Some? ==> forall j :: 0 < j <= r.value ==> PrefixSum(ranks, j) <= draw
    ensures r.None? ==> forall j :: 0 < j <= |ranks| ==> PrefixSum(ranks, j) <= draw
  {
    SpinFrom(ranks, draw, 0, 0.0)
  }

  /** The picks from the k-th on, in order. A pick whose entry points past
      the population raises, as `pop[index]` does. */
  function PoolFrom(pop: seq<Path>, ranks: seq<RankEntry>, roulette: nat -> real, k: nat): (r: Result<seq<Path>>)
    requires k <= |pop|
    decreases |pop| - k
    ensures r.Ok? ==> |r.value| <= |pop| - k
    ensures r.Ok? ==> forall x :: x in r.value ==> x in pop
    ensures r.Err? ==> r.error == IndexError
    ensures (forall j :: 0 <= j < |ranks| ==> ranks[j].index < |pop|) ==> r.Ok?
  {
    if k == |pop| then Ok([])
    else
      match Spin(ranks, roulette(k))
      case None => PoolFrom(pop, ranks, roulette, k + 1)
      case Some(j) =>
        if ranks[j].index < |pop| then
          match PoolFrom(pop, ranks, roulette, k + 1)
          case Err(err) => Err(err)
          case Ok(rest) => Ok([pop[ranks[j].index]] + rest)
        else Err(IndexError)
  }

  /** `create_mating_pool`: one spin per member of the population. */
  function MatingPool(pop: seq<Path>, ranks: seq<RankEntry>, roulette: nat -> real): (r: Result<seq<Path>>)
    ensures r.Ok? ==> |r.value| <= |pop|
    ensures r.Ok? ==> forall x :: x in r.value ==> x in pop
    ensures r.Err? ==> r.error == IndexError
    ensures (forall j :: 0 <= j < |ranks| ==> ranks[j].index < |pop|) ==> r.Ok?
  {
    PoolFrom(pop, ranks, roulette, 0)
  }

  /** Running sums never decrease when the weights are non-negative. */
  lemma {:induction false} PrefixSumMonotone(ranks: seq<RankEntry>, i: nat, j: nat)
    requires NonNegativeWeights(ranks) && i <= j <= |ranks|
    ensures PrefixSum(ranks, i) <= PrefixSum(ranks, j)
    decreases j - i
  {
    if i < j {
      PrefixSumMonotone(ranks, i, j - 1);
    }
  }

  /** With non-negative weights and a non-negative draw, entry `k` owns the
      segment [PrefixSum(k), PrefixSum(k + 1)) of the wheel, as wide as its
      fitness: longer tours are the likelier parents. */
  lemma SpinSegment(ranks: seq<RankEntry>, draw: real, k: nat)
    requires NonNegativeWeights(ranks) && 0.0 <= draw
    ensures Spin(ranks, draw) == Some(k) <==>
      k < |ranks| && PrefixSum(ranks, k) <= draw < PrefixSum(ranks, k + 1)
  {
    if k < |ranks| && PrefixSum(ranks, k) <= draw < PrefixSum(ranks, k + 1) {
      forall j | 0 < j <= k ensures PrefixSum(ranks, j) <= draw {
        PrefixSumMonotone(ranks, j, k);
      }
    }
  }

  /** A draw below the total always selects exactly one entry. */
  lemma SpinHits(ranks: seq<RankEntry>, draw: real)
    requires 0.0 <= draw < Total(ranks)
    ensures Spin(ranks, draw).Some?
  {
    assert |ranks| > 0;
    assert Total(ranks) == PrefixSum(ranks, |ranks|);
  }

  /** An entry of fitness zero owns an empty segment and is never selected. */
  lemma ZeroWeightNeverChosen(ranks: seq<RankEntry>, draw: real, k: nat)
    requires NonNegativeWeights(ranks) && 0.0 <= draw
    requires k < |ranks| && ranks[k].fitness == 0.0
    ensures Spin(ranks, draw) != Some(k)
  {
    SpinSegment(ranks, draw, k);
  }

  /** When every draw lies in [0, total) the pool has one parent per member,
      the k-th being the path the k-th spin lands on. */
  lemma {:induction false} PoolFromFull(pop: seq<Path>, ranks: seq<RankEntry>, roulette: nat -> real, k: nat)
    requires k <= |pop|
    requires forall j :: 0 <= j < |ranks| ==> ranks[j].index < |pop|
    requires forall t :: k <= t < |pop| ==> 0.0 <= roulette(t) < Total(ranks)
    ensures PoolFrom(pop, ranks, roulette, k).Ok?
    ensures |PoolFrom(pop, ranks, roulette, k).value| == |pop| - k
    ensures forall t :: k <= t < |pop| ==> Spin(ranks, roulette(t)).Some?
    ensures forall t :: k <= t < |pop| ==>
      PoolFrom(pop, ranks, roulette, k).value[t - k] == pop[ranks[Spin(ranks, roulette(t)).value].index]
    decreases |pop| - k
  {
    if k < |pop| {
      forall t | k <= t < |pop| ensures Spin(ranks, roulette(t)).Some? {
        SpinHits(ranks, roulette(t));
      }
      PoolFromFull(pop, ranks, roulette, k + 1);
      var pool := PoolFrom(pop, ranks, roulette, k).value;
      var rest := PoolFrom(pop, ranks, roulette, k + 1).value;
      assert pool == [pop[ranks[Spin(ranks, roulette(k)).value].index]] + rest;
      forall t | k <= t < |pop| ensures pool[t - k] == pop[ranks[Spin(ranks, roulette(t)).value].index] {
        if t > k {
          assert pool[t - k] == rest[t - (k + 1)];
        }
      }
    }
  }

  lemma MatingPoolFull(pop: seq<Path>, ranks: seq<RankEntry>, roulette: nat -> real)
    requires forall j :: 0 <= j < |ranks| ==> ranks[j].index < |pop|
    requires forall t :: 0 <= t < |pop| ==> 0.0 <= roulette(t) < Total(ranks)
    ensures MatingPool(pop, ranks, roulette).Ok?
    ensures |MatingPool(pop, ranks, roulette).value| == |pop|
    ensures forall t :: 0 <= t < |pop| ==> Spin(ranks, roulette(t)).Some?
    ensures forall t :: 0 <= t < |pop| ==>
      MatingPool(pop, ranks, roulette).value[t] == pop[ranks[Spin(ranks, roulette(t)).value].index]
  {
    PoolFromFull(pop, ranks, roulette, 0);
    var pool := PoolFrom(pop, ranks, roulette, 0).value;
    forall t | 0 <= t < |pop|
      ensures pool[t] == pop[ranks[Spin(ranks, roulette(t)).value].index]
    {
      assert pool[t - 0] == pool[t];
    }
  }

  /** When no draw is below the total (a zero total draws 0) nothing is
      selected and the pool is empty. */
  lemma {:induction false} PoolFromEmpty(pop: seq<Path>, ranks: seq<RankEntry>, roulette: nat -> real, k: nat)
    requires k <= |pop| && NonNegativeWeights(ranks)
    requires forall t :: k <= t < |pop| ==> Total(ranks) <= roulette(t)
    ensures PoolFrom(pop, ranks, roulette, k) == Ok([])
    decreases |pop| - k
  {
    if k < |pop| {
      var draw := roulette(k);
      forall j | 0 < j <= |ranks| ensures PrefixSum(ranks, j) <= draw {
        PrefixSumMonotone(ranks, j, |ranks|);
      }
      assert Spin(ranks, draw).None?;
      PoolFromEmpty(pop, ranks, roulette, k + 1);
    }
  }

  lemma MatingPoolEmpty(pop: seq<Path>, ranks: seq<RankEntry>, roulette: nat -> real)
    requires NonNegativeWeights(ranks)
    requires forall t :: 0 <= t < |pop| ==> Total(ranks) <= roulette(t)
    ensures MatingPool(pop, ranks, roulette) == Ok([])
  {
    PoolFromEmpty(pop, ranks, roulette, 0);
  }
}
