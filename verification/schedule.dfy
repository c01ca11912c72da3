/** The complexity-based parameter schedule: a four-tier step function from
    the city count to the run parameters (src/main.py, lines 25-47). */
module Schedule {

  /** Run parameters, derived once and held for the whole run. */
  datatype Params = Params(populationSize: nat, generations: nat, mutationRate: real, elites: nat)

  /** The tiers from easiest to most complex. */
  const Tiers: seq<Params> := [
    Params(50, 100, 0.05, 1),
    Params(150, 200, 0.1, 2),
    Params(300, 500, 0.15, 3),
    Params(500, 1000, 0.2, 5)
  ]

  /** The inclusive upper city count of every tier but the last. */
  const Bounds: seq<int> := [10, 50, 100]

  function Schedule(numCities: int): (p: Params)
    ensures 1 <= p.elites < p.populationSize
    ensures p.generations >= 1
    ensures 0.0 < p.mutationRate < 1.0
  {
    if numCities <= 10 then Params(50, 100, 0.05, 1)
    else if numCities <= 50 then Params(150, 200, 0.1, 2)
    else if numCities <= 100 then Params(300, 500, 0.15, 3)
    else Params(500, 1000, 0.2, 5)
  }

  /** How many of the bounds `n` exceeds. */
  function CountBelow(bounds: seq<int>, n: int): (k: nat)
    ensures k <= |bounds|
  {
    if |bounds| == 0 then 0
    else (if bounds[0] < n then 1 else 0) + CountBelow(bounds[1..], n)
  }

  /** The tier of `n`: the number of bounds it lies strictly above, so a
      count equal to a bound still belongs to the lower tier. */
  function TierOf(n: int): (k: nat)
    ensures k < |Tiers|
  {
    CountBelow(Bounds, n)
  }

  /** The if-chain picks the tier given by counting exceeded bounds: first
      match wins and every bound is inclusive on the lower tier. */
  lemma ScheduleByTier(n: int)
    ensures Schedule(n) == Tiers[TierOf(n)]
  {
    var b1, b2, b3 := Bounds[1..], Bounds[1..][1..], Bounds[1..][1..][1..];
    assert b1 == [50, 100] && b2 == [100] && b3 == [];
    assert CountBelow(b3, n) == 0;
    assert CountBelow(b2, n) == if 100 < n then 1 else 0;
    assert CountBelow(b1, n) == (if 50 < n then 1 else 0) + CountBelow(b2, n);
    assert TierOf(n) == (if 10 < n then 1 else 0) + CountBelow(b1, n);
  }

  /** The three boundary counts stay in the lower tier; one more moves up. */
  lemma ScheduleBoundaries()
    ensures Schedule(10) == Tiers[0] && Schedule(11) == Tiers[1]
    ensures Schedule(50) == Tiers[1] && Schedule(51) == Tiers[2]
    ensures Schedule(100) == Tiers[2] && Schedule(101) == Tiers[3]
  {
  }

  /** Population, generations, mutation rate and elites never decrease as
      the city count grows. */
  lemma ScheduleMonotone(a: int, b: int)
    requires a <= b
    ensures Schedule(a).populationSize <= Schedule(b).populationSize
    ensures Schedule(a).generations <= Schedule(b).generations
    ensures Schedule(a).mutationRate <= Schedule(b).mutationRate
    ensures Schedule(a).elites <= Schedule(b).elites
  {
  }
}
