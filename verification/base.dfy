/** Vocabulary shared by every component: the exceptions the program can
    raise, a result type that carries them, cities, paths, and a few facts
    about sequences of distinct elements. */
module Base {

  /** The Python exceptions the modelled code can raise. */
  datatype Error =
    | IndexError  // a list index past the end, including the parent2 cursor
    | ValueError  // `random.randint` asked for an empty range
    | NameError   // the last rank list read although no generation ran

  datatype Option<+T> = None | Some(value: T)

  /** Either the value an operation returns or the exception it raises. */
  datatype Result<+T> = Ok(value: T) | Err(error: Error) {

    predicate IsFailure() {
      Err?
    }

    function PropagateFailure<U>(): Result<U>
      requires Err?
    {
      Err(error)
    }

    function Extract(): T
      requires Ok?
    {
      value
    }
  }

  /** A point read from the input file: three integer coordinates. */
  datatype City = City(x: int, y: int, z: int)

  /** A tour: the cities in visiting order, closed back to the first. */
  type Path = seq<City>

  /** Python's `pick % n` for a non-negative `pick` and a positive `n`,
      written as repeated subtraction. */
  function Mod(pick: nat, n: nat): (r: nat)
    requires n > 0
    decreases pick
    ensures r < n
    ensures pick < n ==> r == pick
  {
    if pick < n then pick else Mod(pick - n, n)
  }

  /** Division with remainder is unique: a quotient and a remainder in
      [0, n) that rebuild `x` are the ones `%` gives. */
  lemma RemainderUnique(x: int, n: int, q: int, r: int)
    requires n > 0 && 0 <= r < n && x == q * n + r
    ensures x % n == r
  {
    var d := q - x / n;
    assert x == (x / n) * n + x % n;
    assert d * n == x % n - r;
  }

  /** The subtraction form agrees with the remainder of division. */
  lemma {:induction false} ModIsRemainder(pick: nat, n: nat) returns (q: nat)
    requires n > 0
    ensures pick == q * n + Mod(pick, n)
    ensures Mod(pick, n) == pick % n
    decreases pick
  {
    if pick < n {
      q := 0;
    } else {
      var q' := ModIsRemainder(pick - n, n);
      q := q' + 1;
      assert q * n == q' * n + n;
    }
    RemainderUnique(pick, n, q, Mod(pick, n));
  }

  predicate Distinct<T(==)>(s: seq<T>) {
    forall i, j :: 0 <= i < j < |s| ==> s[i] != s[j]
  }

  function Elements(s: seq<City>): set<City> {
    set x | x in s
  }

  /** `p` visits exactly the cities of `cities`, each as often. */
  predicate IsTourOf(p: Path, cities: Path) {
    multiset(p) == multiset(cities)
  }

  function Reverse<T>(s: seq<T>): (r: seq<T>)
    ensures |r| == |s|
    ensures forall i :: 0 <= i < |s| ==> r[i] == s[|s| - 1 - i]
  {
    if |s| == 0 then [] else Reverse(s[1..]) + [s[0]]
  }

  lemma {:induction false} ReverseMultiset<T>(s: seq<T>)
    ensures multiset(Reverse(s)) == multiset(s)
  {
    if |s| > 0 {
      ReverseMultiset(s[1..]);
      assert s == [s[0]] + s[1..];
    }
  }

  /** In a sequence without repetition every element occurs exactly once. */
  lemma {:induction false} DistinctCounts<T>(s: seq<T>)
    requires Distinct(s)
    ensures forall x :: multiset(s)[x] == if x in s then 1 else 0
  {
    if |s| > 0 {
      var t := s[1..];
      assert Distinct(t) by {
        forall i, j | 0 <= i < j < |t| ensures t[i] != t[j] {
          assert t[i] == s[i + 1] && t[j] == s[j + 1];
        }
      }
      DistinctCounts(t);
      assert s == [s[0]] + t;
      assert s[0] !in t by {
        forall k | 0 <= k < |t| ensures t[k] != s[0] {
          assert t[k] == s[k + 1];
        }
      }
      forall x ensures multiset(s)[x] == if x in s then 1 else 0 {
        assert multiset(s)[x] == multiset([s[0]])[x] + multiset(t)[x];
        assert x in s <==> x == s[0] || x in t;
      }
    }
  }

  /** Repetition shows up as a count of two. */
  lemma RepeatCounts<T>(s: seq<T>, i: nat, j: nat)
    requires i < j < |s| && s[i] == s[j]
    ensures multiset(s)[s[i]] >= 2
  {
    assert s == s[..j] + s[j..];
    assert s[i] in s[..j];
    assert s[j..][0] == s[j];
    assert multiset(s)[s[i]] == multiset(s[..j])[s[i]] + multiset(s[j..])[s[i]];
  }

  /** Having the same elements as a sequence without repetition keeps that property. */
  lemma DistinctByMultiset<T>(a: seq<T>, b: seq<T>)
    requires Distinct(a) && multiset(a) == multiset(b)
    ensures Distinct(b)
  {
    DistinctCounts(a);
    forall i, j | 0 <= i < j < |b| ensures b[i] != b[j] {
      if b[i] == b[j] {
        RepeatCounts(b, i, j);
      }
    }
  }
}
