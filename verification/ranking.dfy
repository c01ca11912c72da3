/** The ranker: pair every path index with its fitness and sort the pairs by
    ascending fitness with Python's stable `list.sort` (src/main.py, lines 73-80). */
module Ranking {
  import opened Base
  import opened Tour

  /** A path's position in its population and the fitness computed for it. */
  datatype RankEntry = RankEntry(index: nat, fitness: real)

  predicate SortedByFitness(s: seq<RankEntry>) {
    forall j, k :: 0 <= j < k < |s| ==> s[j].fitness <= s[k].fitness
  }

  /** The order a stable sort by fitness gives entries listed by index:
      lower fitness first, equal fitness in index order. */
  predicate Before(a: RankEntry, b: RankEntry) {
    a.fitness < b.fitness || (a.fitness == b.fitness && a.index < b.index)
  }

  predicate StrictlyRanked(s: seq<RankEntry>) {
    forall j, k :: 0 <= j < k < |s| ==> Before(s[j], s[k])
  }

  /** Some entry of the rank list points at path `i`. */
  predicate HasIndex(s: seq<RankEntry>, i: nat) {
    exists k :: 0 <= k < |s| && s[k].index == i
  }

  predicate IndicesIncrease(s: seq<RankEntry>) {
    forall j, k :: 0 <= j < k < |s| ==> s[j].index < s[k].index
  }

  /** A property of every entry survives a reordering. */
  lemma AllTransfer(a: seq<RankEntry>, b: seq<RankEntry>, P: RankEntry -> bool)
    requires multiset(a) == multiset(b)
    requires forall k :: 0 <= k < |b| ==> P(b[k])
    ensures forall k :: 0 <= k < |a| ==> P(a[k])
  {
    forall k | 0 <= k < |a| ensures P(a[k]) {
      assert a[k] in multiset(b);
      var j :| 0 <= j < |b| && b[j] == a[k];
    }
  }

  /** An entry no fitter than any of a sorted list can go in front of it. */
  lemma ConsSorted(x: RankEntry, s: seq<RankEntry>)
    requires SortedByFitness(s) && forall k :: 0 <= k < |s| ==> x.fitness <= s[k].fitness
    ensures SortedByFitness([x] + s)
  {
    var r := [x] + s;
    forall j, k | 0 <= j < k < |r| ensures r[j].fitness <= r[k].fitness {
      assert r[k] == s[k - 1];
      if j > 0 {
        assert r[j] == s[j - 1];
      }
    }
  }

  /** An entry ranked before all of a strictly ranked list can go in front of it. */
  lemma ConsRanked(x: RankEntry, s: seq<RankEntry>)
    requires StrictlyRanked(s) && forall k :: 0 <= k < |s| ==> Before(x, s[k])
    ensures StrictlyRanked([x] + s)
  {
    var r := [x] + s;
    forall j, k | 0 <= j < k < |r| ensures Before(r[j], r[k]) {
      assert r[k] == s[k - 1];
      if j > 0 {
        assert r[j] == s[j - 1];
      }
    }
  }

  /** Puts `e` in front of the first entry that is not fitter than it. */
  function Insert(e: RankEntry, s: seq<RankEntry>): (r: seq<RankEntry>)
    requires SortedByFitness(s)
    ensures multiset(r) == multiset(s) + multiset{e}
    ensures SortedByFitness(r)
  {
    if |s| == 0 || e.fitness <= s[0].fitness then
      ConsSorted(e, s);
      [e] + s
    else
      var rest := Insert(e, s[1..]);
      assert s == [s[0]] + s[1..];
      AllTransfer(rest, s[1..] + [e], (x: RankEntry) => s[0].fitness <= x.fitness);
      ConsSorted(s[0], rest);
      [s[0]] + rest
  }

  /** `list.sort(key=fitness)`, modelled by an insertion sort that keeps
      equal entries in their original order. Every stable sort gives the same
      list: see `SortIsStable` together with the multiset ensures. */
  function SortByFitness(s: seq<RankEntry>): (r: seq<RankEntry>)
    ensures SortedByFitness(r)
    ensures multiset(r) == multiset(s)
  {
    if |s| == 0 then []
    else
      assert s == [s[0]] + s[1..];
      Insert(s[0], SortByFitness(s[1..]))
  }

  /** The unsorted list `[(i, fitness(pop[i])) for i]`. */
  function Entries(pop: seq<Path>, dist: Distance): (r: seq<RankEntry>)
    requires forall i :: 0 <= i < |pop| ==> |pop[i]| > 0
    ensures |r| == |pop| && IndicesIncrease(r)
    ensures forall i :: 0 <= i < |pop| ==> r[i] == RankEntry(i, TourLength(pop[i], dist))
  {
    seq(|pop|, i requires 0 <= i < |pop| => RankEntry(i, TourLength(pop[i], dist)))
  }

  /** `rank_population`. The first empty path makes `calculate_fitness` raise. */
  function Rank(pop: seq<Path>, dist: Distance): (r: Result<seq<RankEntry>>)
    ensures r.Err? <==> exists i :: 0 <= i < |pop| && |pop[i]| == 0
    ensures r.Err? ==> r.error == IndexError
    ensures r.Ok? ==> |r.value| == |pop| && SortedByFitness(r.value)
    ensures r.Ok? ==> forall k :: 0 <= k < |r.value| ==>
      r.value[k].index < |pop| && r.value[k].fitness == TourLength(pop[r.value[k].index], dist)
  {
    if exists i :: 0 <= i < |pop| && |pop[i]| == 0 then Err(IndexError)
    else
      var entries := Entries(pop, dist);
      var sorted := SortByFitness(entries);
      assert |sorted| == |multiset(sorted)| == |entries|;
      assert forall k :: 0 <= k < |sorted| ==> sorted[k] in entries by {
        forall k | 0 <= k < |sorted| ensures sorted[k] in entries {
          assert sorted[k] in multiset(sorted);
        }
      }
      Ok(sorted)
  }

  /** Inserting an entry whose index is below every other keeps the strict
      rank order: it lands after the strictly fitter entries and before the rest. */
  lemma {:induction false} InsertKeepsStrictRank(e: RankEntry, s: seq<RankEntry>)
    requires SortedByFitness(s) && StrictlyRanked(s)
    requires forall k :: 0 <= k < |s| ==> e.index < s[k].index
    ensures StrictlyRanked(Insert(e, s))
    decreases |s|
  {
    if |s| == 0 || e.fitness <= s[0].fitness {
      forall k | 0 <= k < |s| ensures Before(e, s[k]) {
        if k > 0 {
          assert s[0].fitness <= s[k].fitness;
        }
      }
      ConsRanked(e, s);
    } else {
      var t := s[1..];
      assert SortedByFitness(t) && StrictlyRanked(t) by {
        forall j, k | 0 <= j < k < |t| ensures t[j].fitness <= t[k].fitness && Before(t[j], t[k]) {
          assert t[j] == s[j + 1] && t[k] == s[k + 1];
        }
      }
      assert forall k :: 0 <= k < |t| ==> e.index < t[k].index by {
        forall k | 0 <= k < |t| ensures e.index < t[k].index {
          assert t[k] == s[k + 1];
        }
      }
      InsertKeepsStrictRank(e, t);
      var rest := Insert(e, t);
      assert forall k :: 0 <= k < |t| ==> Before(s[0], t[k]) by {
        forall k | 0 <= k < |t| ensures Before(s[0], t[k]) {
          assert t[k] == s[k + 1];
        }
      }
      AllTransfer(rest, t + [e], (x: RankEntry) => Before(s[0], x));
      ConsRanked(s[0], rest);
    }
  }

  /** Stability: sorting entries listed by increasing index orders equal
      fitnesses by index. */
  lemma {:induction false} SortIsStable(s: seq<RankEntry>)
    requires IndicesIncrease(s)
    ensures StrictlyRanked(SortByFitness(s))
    decreases |s|
  {
    if |s| > 0 {
      var t := s[1..];
      assert IndicesIncrease(t) by {
        forall j, k | 0 <= j < k < |t| ensures t[j].index < t[k].index {
          assert t[j] == s[j + 1] && t[k] == s[k + 1];
        }
      }
      SortIsStable(t);
      var sorted := SortByFitness(t);
      AllTransfer(sorted, t, (x: RankEntry) => s[0].index < x.index);
      InsertKeepsStrictRank(s[0], sorted);
    }
  }

  /** The rank list is a permutation of the indices of the population: every
      path appears exactly once, and ties in fitness keep index order. */
  lemma RankIsStableSort(pop: seq<Path>, dist: Distance)
    requires Rank(pop, dist).Ok?
    ensures StrictlyRanked(Rank(pop, dist).value)
    ensures forall i :: 0 <= i < |pop| ==> HasIndex(Rank(pop, dist).value, i)
    ensures forall j, k :: 0 <= j < k < |pop| ==>
      Rank(pop, dist).value[j].index != Rank(pop, dist).value[k].index
  {
    var entries := Entries(pop, dist);
    var r := Rank(pop, dist).value;
    assert r == SortByFitness(entries);
    SortIsStable(entries);
    forall i | 0 <= i < |pop| ensures HasIndex(r, i) {
      assert entries[i] in multiset(r);
      var k :| 0 <= k < |r| && r[k] == entries[i];
    }
    forall j, k | 0 <= j < k < |pop| ensures r[j].index != r[k].index {
      assert Before(r[j], r[k]);
      assert r[j] == entries[r[j].index] && r[k] == entries[r[k].index];
    }
  }

  /** The head of the rank list is the best (shortest) tour of the population. */
  lemma RankHeadIsMinimum(pop: seq<Path>, dist: Distance)
    requires Rank(pop, dist).Ok? && |pop| > 0
    ensures forall i :: 0 <= i < |pop| ==> Rank(pop, dist).value[0].fitness <= TourLength(pop[i], dist)
  {
    var r := Rank(pop, dist).value;
    RankIsStableSort(pop, dist);
    forall i | 0 <= i < |pop| ensures r[0].fitness <= TourLength(pop[i], dist) {
      assert HasIndex(r, i);
      var k :| 0 <= k < |r| && r[k].index == i;
      assert r[0].fitness <= r[k].fitness;
    }
  }
}
