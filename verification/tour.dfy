/** The tour evaluator: the fitness of a path is the length of the closed
    tour through its cities (src/main.py, lines 59-70). */
module Tour {
  import opened Base

  /** The distance between two cities. The program uses the Euclidean
      distance through `math.sqrt`; here it is any function to the reals. */
  type Distance = (City, City) -> real

  ghost predicate NonNegative(dist: Distance) {
    forall a, b :: dist(a, b) >= 0.0
  }

  ghost predicate Symmetric(dist: Distance) {
    forall a, b :: dist(a, b) == dist(b, a)
  }

  /** The edges between consecutive cities, summed left to right as the
      loop of `calculate_fitness` does. */
  function OpenLength(p: Path, dist: Distance): (r: real)
    ensures NonNegative(dist) ==> r >= 0.0
  {
    if |p| <= 1 then 0.0
    else OpenLength(p[..|p| - 1], dist) + dist(p[|p| - 2], p[|p| - 1])
  }

  /** The open path plus the edge from the last city back to the first. */
  function TourLength(p: Path, dist: Distance): (r: real)
    requires |p| > 0
    ensures NonNegative(dist) ==> r >= 0.0
    ensures |p| == 1 ==> r == dist(p[0], p[0])
  {
    OpenLength(p, dist) + dist(p[|p| - 1], p[0])
  }

  /** `calculate_fitness`: an empty path fails at `path[-1]`. */
  function Fitness(p: Path, dist: Distance): (r: Result<real>)
    ensures r.Err? <==> |p| == 0
    ensures r.Err? ==> r.error == IndexError
    ensures r.Ok? && NonNegative(dist) ==> r.value >= 0.0
  {
    if |p| == 0 then Err(IndexError) else Ok(TourLength(p, dist))
  }

  /** The open length also splits off its first edge. */
  lemma {:induction false} OpenLengthFront(p: Path, dist: Distance)
    requires |p| >= 2
    ensures OpenLength(p, dist) == dist(p[0], p[1]) + OpenLength(p[1..], dist)
    decreases |p|
  {
    var n := |p|;
    if n > 2 {
      var init := p[..n - 1];
      OpenLengthFront(init, dist);
      assert init[1..] == p[1..][..n - 2];
      assert p[1..][n - 3] == p[n - 2] && p[1..][n - 2] == p[n - 1];
    } else {
      assert p[..1][..0] == [];
    }
  }

  /** Moving the first city to the end does not change the tour length. */
  lemma RotateOnce(p: Path, dist: Distance)
    requires |p| > 0
    ensures TourLength(p[1..] + [p[0]], dist) == TourLength(p, dist)
  {
    var n := |p|;
    var q := p[1..] + [p[0]];
    if n >= 2 {
      assert q[..n - 1] == p[1..];
      assert q[n - 2] == p[n - 1];
      OpenLengthFront(p, dist);
    } else {
      assert q == p;
    }
  }

  /** The tour length is invariant under every rotation of the path. */
  lemma {:induction false} TourLengthRotation(p: Path, k: nat, dist: Distance)
    requires 0 < |p| && k <= |p|
    ensures TourLength(p[k..] + p[..k], dist) == TourLength(p, dist)
    decreases k
  {
    if k == 0 {
      assert p[0..] + p[..0] == p;
    } else {
      TourLengthRotation(p, k - 1, dist);
      var q := p[k - 1..] + p[..k - 1];
      RotateOnce(q, dist);
      assert q[1..] + [q[0]] == p[k..] + p[..k];
    }
  }

  /** Under a symmetric distance, walking the open path backwards costs the same. */
  lemma {:induction false} OpenLengthReverse(p: Path, dist: Distance)
    requires Symmetric(dist)
    ensures OpenLength(Reverse(p), dist) == OpenLength(p, dist)
    decreases |p|
  {
    var n := |p|;
    if n >= 2 {
      var r := Reverse(p);
      OpenLengthReverse(p[1..], dist);
      assert r[..n - 1] == Reverse(p[1..]);
      assert r[n - 2] == p[1] && r[n - 1] == p[0];
      OpenLengthFront(p, dist);
    }
  }

  /** Under a symmetric distance a tour and its reverse have the same length. */
  lemma TourLengthReverse(p: Path, dist: Distance)
    requires |p| > 0 && Symmetric(dist)
    ensures TourLength(Reverse(p), dist) == TourLength(p, dist)
  {
    OpenLengthReverse(p, dist);
  }

  /** A two-city tour goes there and back. */
  lemma TwoCityTour(a: City, b: City, dist: Distance)
    requires Symmetric(dist)
    ensures Fitness([a, b], dist) == Ok(2.0 * dist(a, b))
  {
    var p := [a, b];
    assert p[..1] == [a];
    assert OpenLength(p, dist) == dist(a, b);
    assert dist(b, a) == dist(a, b);
  }
}
