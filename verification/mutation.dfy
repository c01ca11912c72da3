/** The mutator: with probability `mutation_rate`, reverse one segment of at
    least two cities (src/main.py, lines 117-123). The three random values
    one call consumes are inputs. */
module Mutation {
  import opened Base

  /** The random values of one `mutate` call: `random.random()` for the coin,
      then the two `random.randint` picks, each an arbitrary natural that
      `RandInt` folds into its range. */
  datatype MutationDraw = MutationDraw(coin: real, startPick: nat, endPick: nat)

  /** `random.randint(lo, hi)`: a value of [lo, hi] chosen by `pick`; an empty
      range raises `ValueError`. */
  function RandInt(lo: int, hi: int, pick: nat): (r: Result<int>)
    ensures r.Err? <==> hi < lo
    ensures r.Err? ==> r.error == ValueError
    ensures r.Ok? ==> lo <= r.value <= hi
  {
    if hi < lo then Err(ValueError) else Ok(lo + Mod(pick, hi - lo + 1))
  }

  /** Every value of a non-empty range is some pick's result. */
  lemma RandIntReaches(lo: int, hi: int, v: int)
    requires lo <= v <= hi
    ensures RandInt(lo, hi, v - lo) == Ok(v)
  {
  }

  /** `path[s:e+1] = reversed(path[s:e+1])`. */
  function ReverseSegment(p: Path, s: nat, e: nat): (r: Path)
    requires s <= e < |p|
    ensures |r| == |p|
    ensures forall j :: 0 <= j < |p| && (j < s || e < j) ==> r[j] == p[j]
    ensures forall j :: s <= j <= e ==> r[j] == p[s + e - j]
    ensures multiset(r) == multiset(p)
  {
    var front, mid, back := p[..s], p[s..e + 1], p[e + 1..];
    var r := front + Reverse(mid) + back;
    assert forall j :: s <= j <= e ==> r[j] == p[s + e - j] by {
      forall j | s <= j <= e ensures r[j] == p[s + e - j] {
        assert r[j] == Reverse(mid)[j - s] == mid[|mid| - 1 - (j - s)];
      }
    }
    assert forall j :: e < j < |p| ==> r[j] == p[j] by {
      forall j | e < j < |p| ensures r[j] == p[j] {
        assert r[j] == back[j - (e + 1)];
      }
    }
    assert multiset(r) == multiset(p) by {
      ReverseMultiset(mid);
      assert p == front + mid + back;
    }
    r
  }

  /** The two `randint` calls of a firing mutation on a path of `n` cities:
      `start` in [0, n - 2], then `end` in [start + 1, n - 1]. Fewer than two
      cities leave the first range empty. */
  function Picks(n: nat, draw: MutationDraw): (r: Result<(nat, nat)>)
    ensures r.Err? <==> n < 2
    ensures r.Err? ==> r.error == ValueError
    ensures r.Ok? ==> r.value.0 < r.value.1 < n
  {
    match RandInt(0, n - 2, draw.startPick)
    case Err(err) => Err(err)
    case Ok(start) =>
      // once `start` exists, the range for `end` is never empty
      Ok((start, RandInt(start + 1, n - 1, draw.endPick).value))
  }

  /** Every segment of at least two cities is picked by some draw: [s, e]
      by the picks `s` and `e - s - 1`. */
  lemma PicksCover(n: nat, coin: real, s: nat, e: nat)
    requires s < e < n
    ensures Picks(n, MutationDraw(coin, s, e - s - 1)) == Ok((s, e))
  {
    RandIntReaches(0, n - 2, s);
    RandIntReaches(s + 1, n - 1, e);
  }

  /** `mutate(path, mutation_rate)`: the coin decides; a firing mutation
      reverses the picked segment, so a path of fewer than two cities raises. */
  function Mutate(path: Path, rate: real, draw: MutationDraw): (r: Result<Path>)
    ensures !(draw.coin < rate) ==> r == Ok(path)
    ensures draw.coin < rate ==> (r.Err? <==> |path| < 2)
    ensures r.Err? ==> r.error == ValueError
    ensures r.Ok? ==> IsTourOf(r.value, path)
    ensures r.Ok? && draw.coin < rate ==>
      exists s: nat, e: nat :: s < e < |path| && r.value == ReverseSegment(path, s, e)
  {
    if !(draw.coin < rate) then Ok(path)
    else
      match Picks(|path|, draw)
      case Err(err) => Err(err)
      case Ok((start, end)) => Ok(ReverseSegment(path, start, end))
  }

  /** Reversing the same segment twice gives the path back. */
  lemma ReverseSegmentTwice(p: Path, s: nat, e: nat)
    requires s <= e < |p|
    ensures ReverseSegment(ReverseSegment(p, s, e), s, e) == p
  {
    var q := ReverseSegment(p, s, e);
    var r := ReverseSegment(q, s, e);
    forall j | 0 <= j < |p| ensures r[j] == p[j] {
      if s <= j <= e {
        assert r[j] == q[s + e - j];
      }
    }
  }

  /** Every reversal a firing mutation may perform is reachable. */
  lemma MutateCoversEveryReversal(path: Path, rate: real, coin: real, s: nat, e: nat)
    requires coin < rate && s < e < |path|
    ensures Mutate(path, rate, MutationDraw(coin, s, e - s - 1)) == Ok(ReverseSegment(path, s, e))
  {
    PicksCover(|path|, coin, s, e);
  }

  /** The mutation is an involution for a fixed draw: the picks depend only
      on the length, which the first mutation keeps. */
  lemma MutateTwiceIsIdentity(path: Path, rate: real, draw: MutationDraw)
    requires Mutate(path, rate, draw).Ok?
    ensures Mutate(Mutate(path, rate, draw).value, rate, draw) == Ok(path)
  {
    if draw.coin < rate {
      var (start, end) := Picks(|path|, draw).value;
      ReverseSegmentTwice(path, start, end);
    }
  }

  /** Reversing the whole path is the plain reversal, a mutation that keeps
      every tour length under a symmetric distance. */
  lemma WholeReversal(p: Path)
    requires |p| >= 2
    ensures ReverseSegment(p, 0, |p| - 1) == Reverse(p)
  {
    var e := |p| - 1;
    assert p[..0] == [] && p[0..e + 1] == p && p[e + 1..] == [];
    assert ReverseSegment(p, 0, e) == [] + Reverse(p) + [];
  }
}
