/** The recombiner (src/main.py, lines 100-114). The child starts with every
    slot unset, receives `parent1[start..end]` (inclusive) in place, and then
    has its unset slots filled left to right from `parent2` through a cursor
    that persists across slots and skips every city the child already holds. */
module Crossover {
  import opened Base

  /** A slot of the child under construction: `None` until it is set. */
  type Slot = Option<City>

  predicate InWindow(s: nat, e: nat, j: int) {
    s <= j <= e
  }

  /** The copy loop `for i in range(s, e + 1)` stays inside the child:
      either it is empty or its last index is in range. */
  predicate ValidWindow(n: nat, s: nat, e: nat) {
    s > e || e < n
  }

  /** The child after the window of `p1` has been copied. */
  function Seed(p1: Path, s: nat, e: nat): (r: seq<Slot>)
    ensures |r| == |p1|
  {
    seq(|p1|, j requires 0 <= j < |p1| => if InWindow(s, e, j) then Some(p1[j]) else None)
  }

  /** The seeded child holds `p1`'s cities in the window slots and nothing
      elsewhere. */
  lemma SeedSlots(p1: Path, s: nat, e: nat)
    ensures forall j :: 0 <= j < |p1| ==> (Seed(p1, s, e)[j].Some? <==> InWindow(s, e, j))
    ensures forall j :: 0 <= j < |p1| && Seed(p1, s, e)[j].Some? ==> Seed(p1, s, e)[j].value == p1[j]
  {
  }

  /** The `while parent2[current_pos] in child` loop: the first cursor
      position from `c` on whose city the child does not hold yet. Running
      off the end of `parent2` raises. */
  function Skip(p2: Path, c: nat, child: seq<Slot>): (r: Result<nat>)
    decreases |p2| - c
    ensures r.Ok? ==> c <= r.value < |p2| && Some(p2[r.value]) !in child
    ensures r.Ok? ==> forall k :: c <= k < r.value ==> Some(p2[k]) in child
    ensures r.Err? ==> r.error == IndexError
    ensures r.Err? ==> forall k :: c <= k < |p2| ==> Some(p2[k]) in child
  {
    if c >= |p2| then Err(IndexError)
    else if Some(p2[c]) in child then Skip(p2, c + 1, child)
    else Ok(c)
  }

  /** The fill loop from slot `i` on, with the cursor at `c`. */
  function Fill(child: seq<Slot>, p2: Path, i: nat, c: nat): (r: Result<seq<Slot>>)
    requires i <= |child|
    decreases |child| - i
    ensures r.Ok? ==> |r.value| == |child|
    ensures r.Ok? ==> forall j :: i <= j < |child| ==> r.value[j].Some?
    ensures r.Ok? ==> forall j :: 0 <= j < |child| && (j < i || child[j].Some?) ==> r.value[j] == child[j]
    ensures r.Ok? ==> forall j :: i <= j < |child| && child[j].None? ==> r.value[j].value in p2
    ensures r.Err? ==> r.error == IndexError
  {
    if i == |child| then Ok(child)
    else if child[i].Some? then Fill(child, p2, i + 1, c)
    else
      match Skip(p2, c, child)
      case Err(err) => Err(err)
      case Ok(k) => Fill(child[i := Some(p2[k])], p2, i + 1, k + 1)
  }

  /** The cities of a child whose slots are all set. */
  function Values(slots: seq<Slot>): (r: Path)
    requires forall j :: 0 <= j < |slots| ==> slots[j].Some?
    ensures |r| == |slots|
    ensures forall j :: 0 <= j < |slots| ==> slots[j] == Some(r[j])
  {
    seq(|slots|, j requires 0 <= j < |slots| && slots[j].Some? => slots[j].value)
  }

  /** `crossover(parent1, parent2, start_index, end_index)`. */
  function Crossover(p1: Path, p2: Path, s: nat, e: nat): (r: Result<Path>)
    ensures !ValidWindow(|p1|, s, e) ==> r == Err(IndexError)
    ensures r.Err? ==> r.error == IndexError
    ensures r.Ok? ==> |r.value| == |p1|
    ensures r.Ok? ==> forall j :: 0 <= j < |p1| && InWindow(s, e, j) ==> r.value[j] == p1[j]
    ensures r.Ok? ==> forall j :: 0 <= j < |p1| && !InWindow(s, e, j) ==> r.value[j] in p2
  {
    if !ValidWindow(|p1|, s, e) then Err(IndexError)
    else
      var seed := Seed(p1, s, e);
      match Fill(seed, p2, 0, 0)
      case Err(err) => Err(err)
      case Ok(full) => Ok(Values(full))
  }

  // ---------------------------------------------------------------------
  // The order-crossover child, defined directly.

  /** The parents the fill loop is written for: `p1` repeats no city, `p2`
      holds the same cities, and the window fits. */
  predicate WellFormed(p1: Path, p2: Path, s: nat, e: nat) {
    Distinct(p1) && multiset(p1) == multiset(p2) && ValidWindow(|p1|, s, e)
  }

  /** The cities copied from `p1`. */
  function Window(p1: Path, s: nat, e: nat): Path {
    if s <= e && e < |p1| then p1[s..e + 1] else []
  }

  /** The cities of `s` outside `w`, in their order in `s`. */
  function Without(s: Path, w: set<City>): Path {
    if |s| == 0 then []
    else Without(s[..|s| - 1], w) + (if s[|s| - 1] in w then [] else [s[|s| - 1]])
  }

  /** The cities of `p2` that the window does not already supply. */
  function Remaining(p1: Path, p2: Path, s: nat, e: nat): Path {
    Without(p2, Elements(Window(p1, s, e)))
  }

  /** The order-crossover child: the remaining cities of `p2` in their
      order, with the window of `p1` spliced in at its own position. */
  function OrderChild(p1: Path, p2: Path, s: nat, e: nat): Path {
    var f := Remaining(p1, p2, s, e);
    var k := if s <= e && s <= |f| then s else 0;
    f[..k] + Window(p1, s, e) + f[k..]
  }

  /** How many slots outside the window come before slot `j`: the index in
      `Remaining` of the city that slot `j` receives. */
  function FillSlot(s: nat, e: nat, j: nat): nat {
    if s > e || j <= s then j else if j <= e + 1 then s else j - (e + 1 - s)
  }

  /** The slots outside the window, read left to right. */
  function NonWindow(c: Path, s: nat, e: nat): Path {
    if s <= e && e < |c| then c[..s] + c[e + 1..] else c
  }

  lemma {:induction false} WithoutMembers(s: Path, w: set<City>)
    ensures forall x :: x in Without(s, w) <==> x in s && x !in w
    decreases |s|
  {
    if |s| > 0 {
      var init := s[..|s| - 1];
      WithoutMembers(init, w);
      assert s == init + [s[|s| - 1]];
    }
  }

  lemma {:induction false} WithoutDistinct(s: Path, w: set<City>)
    requires Distinct(s)
    ensures Distinct(Without(s, w))
    decreases |s|
  {
    if |s| > 0 {
      var n := |s|;
      var init := s[..n - 1];
      assert Distinct(init) by {
        forall i, j | 0 <= i < j < |init| ensures init[i] != init[j] {
          assert init[i] == s[i] && init[j] == s[j];
        }
      }
      WithoutDistinct(init, w);
      WithoutMembers(init, w);
      assert s[n - 1] !in init by {
        forall k | 0 <= k < |init| ensures init[k] != s[n - 1] {
          assert init[k] == s[k];
        }
      }
      var a := Without(init, w);
      var r := Without(s, w);
      if s[n - 1] !in w {
        assert r == a + [s[n - 1]];
        forall i, j | 0 <= i < j < |r| ensures r[i] != r[j] {
          if j == |a| {
            assert r[i] == a[i] && a[i] in a;
          } else {
            assert r[i] == a[i] && r[j] == a[j];
          }
        }
      }
    }
  }

  /** One more step of the cursor adds at most its city. */
  lemma WithoutStep(s: Path, w: set<City>, k: nat)
    requires k < |s|
    ensures Without(s[..k + 1], w) == Without(s[..k], w) + (if s[k] in w then [] else [s[k]])
  {
    assert s[..k + 1][..k] == s[..k];
  }

  /** What the cursor has passed is a prefix of what it will pass. */
  lemma {:induction false} WithoutPrefix(s: Path, w: set<City>, k: nat)
    requires k <= |s|
    ensures |Without(s[..k], w)| <= |Without(s, w)|
    ensures Without(s, w)[..|Without(s[..k], w)|] == Without(s[..k], w)
    decreases |s|
  {
    if k < |s| {
      var init := s[..|s| - 1];
      assert init[..k] == s[..k];
      WithoutPrefix(init, w, k);
    } else {
      assert s[..k] == s;
    }
  }

  /** The remaining cities and the window together are exactly the cities of `p1`. */
  lemma SplitCounts(p1: Path, p2: Path, s: nat, e: nat)
    requires WellFormed(p1, p2, s, e)
    ensures multiset(Remaining(p1, p2, s, e)) + multiset(Window(p1, s, e)) == multiset(p1)
    ensures |Remaining(p1, p2, s, e)| + |Window(p1, s, e)| == |p1|
  {
    var w := Window(p1, s, e);
    var ws := Elements(w);
    var f := Remaining(p1, p2, s, e);
    DistinctByMultiset(p1, p2);
    assert Distinct(w) by {
      forall a, b | 0 <= a < b < |w| ensures w[a] != w[b] {
        assert w[a] == p1[s + a] && w[b] == p1[s + b];
      }
    }
    WithoutDistinct(p2, ws);
    WithoutMembers(p2, ws);
    DistinctCounts(p2);
    DistinctCounts(f);
    DistinctCounts(w);
    forall x ensures (multiset(f) + multiset(w))[x] == multiset(p2)[x] {
      if x in w {
        var a :| 0 <= a < |w| && w[a] == x;
        assert p1[s + a] == x;
        assert x in multiset(p1);
      }
    }
    assert multiset(f) + multiset(w) == multiset(p2);
    assert |multiset(f) + multiset(w)| == |multiset(p1)|;
  }

  /** Slot by slot: the window holds `p1`, every other slot the next
      remaining city of `p2`. */
  lemma OrderChildAt(p1: Path, p2: Path, s: nat, e: nat)
    requires WellFormed(p1, p2, s, e)
    ensures |OrderChild(p1, p2, s, e)| == |p1|
    ensures forall j :: 0 <= j <= |p1| ==> FillSlot(s, e, j) <= |Remaining(p1, p2, s, e)|
    ensures forall j :: 0 <= j < |p1| && InWindow(s, e, j) ==> OrderChild(p1, p2, s, e)[j] == p1[j]
    ensures forall j :: 0 <= j < |p1| && !InWindow(s, e, j) ==>
      FillSlot(s, e, j) < |Remaining(p1, p2, s, e)| &&
      OrderChild(p1, p2, s, e)[j] == Remaining(p1, p2, s, e)[FillSlot(s, e, j)]
  {
    SplitCounts(p1, p2, s, e);
    var f := Remaining(p1, p2, s, e);
    var w := Window(p1, s, e);
    var t := OrderChild(p1, p2, s, e);
    if s <= e {
      assert t == f[..s] + w + f[s..];
      forall j | 0 <= j < |p1| ensures t[j] == if InWindow(s, e, j) then p1[j] else f[FillSlot(s, e, j)] {
        if j < s {
          assert t[j] == f[..s][j];
        } else if j <= e {
          assert t[j] == w[j - s];
        } else {
          assert t[j] == f[s..][j - s - |w|];
        }
      }
    } else {
      assert t == f;
    }
  }

  /** The state of the fill loop before slot `i`: the slots before it agree
      with `OrderChild`, the later ones are as seeded, and the cursor has
      passed exactly the remaining cities placed so far (and window cities). */
  ghost predicate Building(p1: Path, p2: Path, s: nat, e: nat, child: seq<Slot>, i: nat, c: nat) {
    && WellFormed(p1, p2, s, e)
    && i <= |p1| && |child| == |p1| && c <= |p2|
    && |OrderChild(p1, p2, s, e)| == |p1|
    && (forall j :: 0 <= j < i ==> child[j] == Some(OrderChild(p1, p2, s, e)[j]))
    && (forall j :: i <= j < |p1| ==> child[j] == Seed(p1, s, e)[j])
    && FillSlot(s, e, i) <= |Remaining(p1, p2, s, e)|
    && Without(p2[..c], Elements(Window(p1, s, e))) == Remaining(p1, p2, s, e)[..FillSlot(s, e, i)]
  }

  /** A slot before `i` outside the window holds a city the cursor has passed. */
  lemma PassedCity(p1: Path, p2: Path, s: nat, e: nat, child: seq<Slot>, i: nat, c: nat, j: nat) returns (b: nat)
    requires Building(p1, p2, s, e, child, i, c)
    requires j < i && !InWindow(s, e, j)
    ensures b < c && Some(p2[b]) == child[j]
  {
    var f := Remaining(p1, p2, s, e);
    var ws := Elements(Window(p1, s, e));
    OrderChildAt(p1, p2, s, e);
    var t := OrderChild(p1, p2, s, e);
    var m := FillSlot(s, e, j);
    assert m < FillSlot(s, e, i);
    assert t[j] == f[m] && f[m] == f[..FillSlot(s, e, i)][m];
    WithoutMembers(p2[..c], ws);
    assert t[j] in p2[..c];
    b :| 0 <= b < c && p2[..c][b] == t[j];
  }

  /** While slot `i` waits to be filled, the child holds a city at or after
      the cursor exactly when that city belongs to the window. */
  lemma Unplaced(p1: Path, p2: Path, s: nat, e: nat, child: seq<Slot>, i: nat, c: nat, k: nat)
    requires Building(p1, p2, s, e, child, i, c)
    requires c <= k < |p2|
    ensures Some(p2[k]) in child <==> p2[k] in Elements(Window(p1, s, e))
  {
    var w := Window(p1, s, e);
    var x := p2[k];
    OrderChildAt(p1, p2, s, e);
    if x in Elements(w) {
      var a :| 0 <= a < |w| && w[a] == x;
      assert child[s + a] == Some(x);
    } else {
      DistinctByMultiset(p1, p2);
      forall j | 0 <= j < |child| ensures child[j] != Some(x) {
        if j < i && !InWindow(s, e, j) {
          var b := PassedCity(p1, p2, s, e, child, i, c, j);
          assert p2[b] != p2[k];
        } else if InWindow(s, e, j) {
          assert child[j] == Some(p1[j]) && p1[j] == w[j - s];
        }
      }
    }
  }

  /** A window slot is already set: the loop moves on with the cursor unchanged. */
  lemma StepWindow(p1: Path, p2: Path, s: nat, e: nat, child: seq<Slot>, i: nat, c: nat)
    requires Building(p1, p2, s, e, child, i, c)
    requires i < |p1| && InWindow(s, e, i)
    ensures child[i].Some?
    ensures Building(p1, p2, s, e, child, i + 1, c)
  {
    OrderChildAt(p1, p2, s, e);
    assert child[i] == Some(p1[i]);
  }

  /** At an unset slot the cursor finds the next remaining city of `p2`,
      the one `OrderChild` puts there. */
  lemma CursorStep(p1: Path, p2: Path, s: nat, e: nat, child: seq<Slot>, i: nat, c: nat)
    requires Building(p1, p2, s, e, child, i, c)
    requires i < |p1| && !InWindow(s, e, i)
    ensures child[i].None?
    ensures Skip(p2, c, child).Ok?
    ensures p2[Skip(p2, c, child).value] == OrderChild(p1, p2, s, e)[i]
    ensures FillSlot(s, e, i + 1) <= |Remaining(p1, p2, s, e)|
    ensures Without(p2[..Skip(p2, c, child).value + 1], Elements(Window(p1, s, e))) ==
      Remaining(p1, p2, s, e)[..FillSlot(s, e, i + 1)]
  {
    var f := Remaining(p1, p2, s, e);
    var ws := Elements(Window(p1, s, e));
    OrderChildAt(p1, p2, s, e);
    var m := FillSlot(s, e, i);
    forall k | c <= k < |p2| ensures Some(p2[k]) in child <==> p2[k] in ws {
      Unplaced(p1, p2, s, e, child, i, c, k);
    }
    assert FillSlot(s, e, i + 1) == m + 1;
    SkipFinds(p2, ws, f, c, m, child);
  }

  /** An unset slot receives the next remaining city of `p2`. */
  lemma StepFill(p1: Path, p2: Path, s: nat, e: nat, child: seq<Slot>, i: nat, c: nat)
    requires Building(p1, p2, s, e, child, i, c)
    requires i < |p1| && !InWindow(s, e, i)
    ensures child[i].None?
    ensures Skip(p2, c, child).Ok?
    ensures Building(p1, p2, s, e, Advance(child, p2, i, c), i + 1, Skip(p2, c, child).value + 1)
  {
    CursorStep(p1, p2, s, e, child, i, c);
    var t := OrderChild(p1, p2, s, e);
    var k := Skip(p2, c, child).value;
    var next := child[i := Some(p2[k])];
    assert forall j :: 0 <= j < i + 1 ==> next[j] == Some(t[j]) by {
      forall j | 0 <= j < i + 1 ensures next[j] == Some(t[j]) {
        if j < i {
          assert next[j] == child[j];
        }
      }
    }
    assert forall j :: i + 1 <= j < |p1| ==> next[j] == Seed(p1, s, e)[j] by {
      forall j | i + 1 <= j < |p1| ensures next[j] == Seed(p1, s, e)[j] {
        assert next[j] == child[j];
      }
    }
  }

  /** The cursor moves to the next city of `Remaining`, never past the end
      of `p2` while such a city is left. */
  lemma {:induction false} SkipFinds(p2: Path, w: set<City>, f: Path, c: nat, m: nat, child: seq<Slot>)
    requires f == Without(p2, w) && c <= |p2| && m < |f|
    requires Without(p2[..c], w) == f[..m]
    requires forall k :: c <= k < |p2| ==> (Some(p2[k]) in child <==> p2[k] in w)
    ensures Skip(p2, c, child).Ok?
    ensures p2[Skip(p2, c, child).value] == f[m]
    ensures Without(p2[..Skip(p2, c, child).value + 1], w) == f[..m + 1]
    decreases |p2| - c
  {
    assert p2[..|p2|] == p2;
    assert c < |p2|;
    WithoutStep(p2, w, c);
    if p2[c] in w {
      SkipFinds(p2, w, f, c + 1, m, child);
    } else {
      WithoutPrefix(p2, w, c + 1);
      assert f[..m + 1] == f[..m] + [p2[c]];
      assert f[..m + 1][m] == f[m];
    }
  }

  /** One turn of the fill loop at a window slot, in the loop's own terms. */
  lemma FillPassesWindow(p1: Path, p2: Path, s: nat, e: nat, child: seq<Slot>, i: nat, c: nat)
    requires Building(p1, p2, s, e, child, i, c)
    requires i < |p1| && InWindow(s, e, i)
    ensures Fill(child, p2, i, c) == Fill(child, p2, i + 1, c)
    ensures Building(p1, p2, s, e, child, i + 1, c)
  {
    StepWindow(p1, p2, s, e, child, i, c);
  }

  /** The fill loop's step at an unset slot whose cursor search succeeds. */
  lemma FillUnfold(child: seq<Slot>, p2: Path, i: nat, c: nat)
    requires i < |child| && child[i].None? && Skip(p2, c, child).Ok?
    ensures Fill(child, p2, i, c) == Fill(Advance(child, p2, i, c), p2, i + 1, Skip(p2, c, child).value + 1)
  {
  }

  /** The child after the pass at an unset slot `i`: the city under the
      cursor once it has skipped the cities already placed. */
  function Advance(child: seq<Slot>, p2: Path, i: nat, c: nat): (r: seq<Slot>)
    requires i < |child| && Skip(p2, c, child).Ok?
    ensures |r| == |child|
  {
    child[i := Some(p2[Skip(p2, c, child).value])]
  }

  /** The slots of a child whose every slot is set to the given cities. */
  function AllSet(t: Path): (r: seq<Slot>)
    ensures |r| == |t|
    ensures forall j :: 0 <= j < |t| ==> r[j] == Some(t[j])
  {
    seq(|t|, j requires 0 <= j < |t| => Some(t[j]))
  }

  /** One pass of the fill loop keeps it building the reference child. */
  lemma FillStep(p1: Path, p2: Path, s: nat, e: nat, child: seq<Slot>, i: nat, c: nat)
      returns (next: seq<Slot>, c': nat)
    requires Building(p1, p2, s, e, child, i, c)
    requires i < |p1|
    ensures Building(p1, p2, s, e, next, i + 1, c')
    ensures Fill(child, p2, i, c) == Fill(next, p2, i + 1, c')
  {
    if InWindow(s, e, i) {
      FillPassesWindow(p1, p2, s, e, child, i, c);
      next, c' := child, c;
    } else {
      StepFill(p1, p2, s, e, child, i, c);
      FillUnfold(child, p2, i, c);
      next, c' := Advance(child, p2, i, c), Skip(p2, c, child).value + 1;
    }
  }

  /** A fill loop that has built every slot of the reference child stops with it. */
  lemma FillDone(p1: Path, p2: Path, s: nat, e: nat, child: seq<Slot>, c: nat)
    requires Building(p1, p2, s, e, child, |p1|, c)
    ensures Fill(child, p2, |p1|, c) == Ok(AllSet(OrderChild(p1, p2, s, e)))
  {
    assert child == AllSet(OrderChild(p1, p2, s, e));
  }

  /** The fill loop, started in a state that agrees with `OrderChild` on
      the slots already done, completes it. */
  lemma {:induction false} FillBuildsOrderChild(p1: Path, p2: Path, s: nat, e: nat, child: seq<Slot>, i: nat, c: nat)
    requires Building(p1, p2, s, e, child, i, c)
    ensures Fill(child, p2, i, c) == Ok(AllSet(OrderChild(p1, p2, s, e)))
    decreases |p1| - i
  {
    if i == |p1| {
      FillDone(p1, p2, s, e, child, c);
    } else {
      var next, c' := FillStep(p1, p2, s, e, child, i, c);
      FillBuildsOrderChild(p1, p2, s, e, next, i + 1, c');
    }
  }

  /** The fill loop computes the order-crossover child; in particular the
      cursor never runs past the end of `parent2`. */
  lemma CrossoverIsOrderChild(p1: Path, p2: Path, s: nat, e: nat)
    requires WellFormed(p1, p2, s, e)
    ensures Crossover(p1, p2, s, e) == Ok(OrderChild(p1, p2, s, e))
  {
    OrderChildAt(p1, p2, s, e);
    var t := OrderChild(p1, p2, s, e);
    var seed := Seed(p1, s, e);
    assert p2[..0] == [];
    assert Building(p1, p2, s, e, seed, 0, 0);
    FillBuildsOrderChild(p1, p2, s, e, seed, 0, 0);
    assert Values(AllSet(t)) == t;
  }

  /** The child holds the cities of `p1`, each as often. */
  lemma OrderChildCounts(p1: Path, p2: Path, s: nat, e: nat)
    requires WellFormed(p1, p2, s, e)
    ensures multiset(OrderChild(p1, p2, s, e)) == multiset(p1)
  {
    SplitCounts(p1, p2, s, e);
    var f := Remaining(p1, p2, s, e);
    var w := Window(p1, s, e);
    var k := if s <= e && s <= |f| then s else 0;
    assert OrderChild(p1, p2, s, e) == f[..k] + w + f[k..];
    assert f == f[..k] + f[k..];
  }

  /** Read around the window, the child is the remaining cities of `p2`. */
  lemma OrderChildOutside(p1: Path, p2: Path, s: nat, e: nat)
    requires WellFormed(p1, p2, s, e)
    ensures NonWindow(OrderChild(p1, p2, s, e), s, e) == Remaining(p1, p2, s, e)
  {
    SplitCounts(p1, p2, s, e);
    var f := Remaining(p1, p2, s, e);
    var w := Window(p1, s, e);
    var t := OrderChild(p1, p2, s, e);
    if s <= e {
      assert t == f[..s] + w + f[s..];
      assert t[..s] == f[..s];
      assert t[e + 1..] == f[s..];
      assert f == f[..s] + f[s..];
    }
  }

  /** The child is a tour of the cities of `p1` that keeps the window of
      `p1` in place and fills the other slots with the remaining cities of
      `p2` in their order. */
  lemma OrderChildProperties(p1: Path, p2: Path, s: nat, e: nat)
    requires WellFormed(p1, p2, s, e)
    ensures IsTourOf(OrderChild(p1, p2, s, e), p1) && Distinct(OrderChild(p1, p2, s, e))
    ensures |OrderChild(p1, p2, s, e)| == |p1|
    ensures forall j :: 0 <= j < |p1| && InWindow(s, e, j) ==> OrderChild(p1, p2, s, e)[j] == p1[j]
    ensures NonWindow(OrderChild(p1, p2, s, e), s, e) == Without(p2, Elements(Window(p1, s, e)))
  {
    OrderChildAt(p1, p2, s, e);
    OrderChildCounts(p1, p2, s, e);
    OrderChildOutside(p1, p2, s, e);
    DistinctByMultiset(p1, OrderChild(p1, p2, s, e));
  }

  /** The properties promised of `crossover` for well-formed parents. */
  lemma CrossoverCorrect(p1: Path, p2: Path, s: nat, e: nat)
    requires WellFormed(p1, p2, s, e)
    ensures Crossover(p1, p2, s, e).Ok?
    ensures IsTourOf(Crossover(p1, p2, s, e).value, p1) && Distinct(Crossover(p1, p2, s, e).value)
    ensures forall j :: 0 <= j < |p1| && InWindow(s, e, j) ==> Crossover(p1, p2, s, e).value[j] == p1[j]
    ensures NonWindow(Crossover(p1, p2, s, e).value, s, e) == Without(p2, Elements(Window(p1, s, e)))
  {
    CrossoverIsOrderChild(p1, p2, s, e);
    OrderChildProperties(p1, p2, s, e);
  }

  /** The cities of the hand-traced example below, 0-1-2-3 along the x axis. */
  function ExampleCity(k: int): City {
    City(k, 0, 0)
  }

  lemma ExampleRemaining()
    ensures
      var a, b, c, d := ExampleCity(0), ExampleCity(1), ExampleCity(2), ExampleCity(3);
      Remaining([a, b, c, d], [d, c, b, a], 1, 2) == [d, a]
  {
    var a, b, c, d := ExampleCity(0), ExampleCity(1), ExampleCity(2), ExampleCity(3);
    var p1, p2 := [a, b, c, d], [d, c, b, a];
    assert Window(p1, 1, 2) == [b, c];
    var ws := Elements([b, c]);
    assert a !in ws && d !in ws && b in ws && c in ws;
    var q1, q2, q3 := [d], [d, c], [d, c, b];
    assert q2[..1] == q1 && q3[..2] == q2 && p2[..3] == q3;
    assert Without(q1, ws) == [d] by {
      assert q1[..0] == [];
    }
    assert Without(q3, ws) == [d];
  }

  lemma ExampleWellFormed()
    ensures
      var a, b, c, d := ExampleCity(0), ExampleCity(1), ExampleCity(2), ExampleCity(3);
      WellFormed([a, b, c, d], [d, c, b, a], 1, 2)
  {
    var a, b, c, d := ExampleCity(0), ExampleCity(1), ExampleCity(2), ExampleCity(3);
    var p1, p2 := [a, b, c, d], [d, c, b, a];
    assert Distinct(p1) by {
      forall i, j | 0 <= i < j < 4 ensures p1[i] != p1[j] {
        assert p1[i] == ExampleCity(i) && p1[j] == ExampleCity(j);
      }
    }
    assert multiset(p1) == multiset(p2) by {
      assert multiset(p1) == multiset{a, b, c, d};
      assert multiset(p2) == multiset{d, c, b, a};
    }
  }

  /** The hand-traced example: window [1, 2] of 0-1-2-3 crossed with 3-2-1-0. */
  lemma CrossoverExample()
    ensures
      var a, b, c, d := ExampleCity(0), ExampleCity(1), ExampleCity(2), ExampleCity(3);
      Crossover([a, b, c, d], [d, c, b, a], 1, 2) == Ok([d, b, c, a])
  {
    var a, b, c, d := ExampleCity(0), ExampleCity(1), ExampleCity(2), ExampleCity(3);
    var p1, p2 := [a, b, c, d], [d, c, b, a];
    ExampleWellFormed();
    ExampleRemaining();
    var f := Remaining(p1, p2, 1, 2);
    assert f == [d, a];
    assert f[..1] == [d] && f[1..] == [a];
    assert Window(p1, 1, 2) == [b, c];
    assert OrderChild(p1, p2, 1, 2) == [d] + [b, c] + [a];
    assert [d] + [b, c] + [a] == [d, b, c, a];
    CrossoverIsOrderChild(p1, p2, 1, 2);
  }
}
