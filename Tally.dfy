/**
 * Counting over sequences: how often a value occurs, and the fact that summing
 * those counts over a duplicate-free list of all values gives the length (and,
 * weighted by the value, the total). The history statistics rest on these.
 */
module Tally {

  predicate Distinct<T(==)>(d: seq<T>)
  {
    forall i, j :: 0 <= i < j < |d| ==> d[i] != d[j]
  }

  /** Number of occurrences of t in xs. */
  function Count<T(==)>(xs: seq<T>, t: T): (n: nat)
    ensures n <= |xs|
    ensures t !in xs ==> n == 0
  {
    if xs == [] then 0
    else Count(xs[..|xs| - 1], t) + (if xs[|xs| - 1] == t then 1 else 0)
  }

  lemma CountSnoc<T>(xs: seq<T>, a: T, t: T)
    ensures Count(xs + [a], t) == Count(xs, t) + (if a == t then 1 else 0)
  {
    assert (xs + [a])[..|xs|] == xs;
  }

  /** The sum, over the values listed in d, of their counts in xs. */
  function CountSum<T(==)>(xs: seq<T>, d: seq<T>): nat
  {
    if d == [] then 0 else Count(xs, d[0]) + CountSum(xs, d[1..])
  }

  function Hits<T(==)>(a: T, d: seq<T>): nat
  {
    if d == [] then 0 else (if d[0] == a then 1 else 0) + Hits(a, d[1..])
  }

  lemma {:induction false} CountSumSnoc<T>(xs: seq<T>, a: T, d: seq<T>)
    ensures CountSum(xs + [a], d) == CountSum(xs, d) + Hits(a, d)
    decreases |d|
  {
    if d != [] {
      CountSnoc(xs, a, d[0]);
      CountSumSnoc(xs, a, d[1..]);
    }
  }

  lemma {:induction false} HitsDistinct<T>(a: T, d: seq<T>)
    requires Distinct(d)
    ensures Hits(a, d) == if a in d then 1 else 0
    decreases |d|
  {
    if d != [] {
      assert Distinct(d[1..]);
      HitsDistinct(a, d[1..]);
      if d[0] == a {
        assert a !in d[1..] by {
          forall k | 0 <= k < |d[1..]| ensures d[1..][k] != a {
            assert d[1..][k] == d[k + 1];
          }
        }
      } else {
        assert a in d <==> a in d[1..];
      }
    }
  }

  /** Counting every value of xs once, over a duplicate-free list that covers them, gives |xs|. */
  lemma {:induction false} CountSumTotal<T>(xs: seq<T>, d: seq<T>)
    requires Distinct(d)
    requires forall x :: x in xs ==> x in d
    ensures CountSum(xs, d) == |xs|
    decreases |xs|
  {
    if xs == [] {
      CountSumEmpty(d);
    } else {
      var init, a := xs[..|xs| - 1], xs[|xs| - 1];
      assert xs == init + [a];
      assert forall x :: x in init ==> x in xs;
      CountSumTotal(init, d);
      CountSumSnoc(init, a, d);
      HitsDistinct(a, d);
    }
  }

  lemma {:induction false} CountSumEmpty<T>(d: seq<T>)
    ensures CountSum([], d) == 0
    decreases |d|
  {
    if d != [] { CountSumEmpty(d[1..]); }
  }

  function Sum(xs: seq<int>): int
  {
    if xs == [] then 0 else Sum(xs[..|xs| - 1]) + xs[|xs| - 1]
  }

  /** The sum, over the values listed in d, of value times count in xs. */
  function WeightedCountSum(xs: seq<int>, d: seq<int>): int
  {
    if d == [] then 0 else d[0] * Count(xs, d[0]) + WeightedCountSum(xs, d[1..])
  }

  function WeightedHits(a: int, d: seq<int>): int
  {
    if d == [] then 0 else (if d[0] == a then a else 0) + WeightedHits(a, d[1..])
  }

  lemma {:induction false} WeightedSnoc(xs: seq<int>, a: int, d: seq<int>)
    ensures WeightedCountSum(xs + [a], d) == WeightedCountSum(xs, d) + WeightedHits(a, d)
    decreases |d|
  {
    if d != [] {
      var t := d[0];
      CountSnoc(xs, a, t);
      WeightedSnoc(xs, a, d[1..]);
      var c, c' := Count(xs, t), Count(xs + [a], t);
      assert WeightedCountSum(xs + [a], d) == t * c' + WeightedCountSum(xs + [a], d[1..]);
      assert WeightedCountSum(xs, d) == t * c + WeightedCountSum(xs, d[1..]);
      if a == t {
        MulSucc(t, c);
      }
    }
  }

  lemma MulSucc(t: int, c: int)
    ensures t * (c + 1) == t * c + t
  {
  }

  lemma {:induction false} WeightedHitsDistinct(a: int, d: seq<int>)
    requires Distinct(d)
    ensures WeightedHits(a, d) == if a in d then a else 0
    decreases |d|
  {
    if d != [] {
      assert Distinct(d[1..]);
      WeightedHitsDistinct(a, d[1..]);
      if d[0] == a {
        assert a !in d[1..] by {
          forall k | 0 <= k < |d[1..]| ensures d[1..][k] != a {
            assert d[1..][k] == d[k + 1];
          }
        }
      } else {
        assert a in d <==> a in d[1..];
      }
    }
  }

  lemma {:induction false} WeightedEmpty(d: seq<int>)
    ensures WeightedCountSum([], d) == 0
    decreases |d|
  {
    if d != [] { WeightedEmpty(d[1..]); }
  }

  /** Summing value times count over a covering duplicate-free list gives the total of xs. */
  lemma {:induction false} WeightedCountSumTotal(xs: seq<int>, d: seq<int>)
    requires Distinct(d)
    requires forall x :: x in xs ==> x in d
    ensures WeightedCountSum(xs, d) == Sum(xs)
    decreases |xs|
  {
    if xs == [] {
      WeightedEmpty(d);
    } else {
      var init, a := xs[..|xs| - 1], xs[|xs| - 1];
      assert xs == init + [a];
      assert forall x :: x in init ==> x in xs;
      WeightedCountSumTotal(init, d);
      WeightedSnoc(init, a, d);
      WeightedHitsDistinct(a, d);
    }
  }

  /** The distinct values of xs in order of first appearance (the key order of a dict filled from xs). */
  function Firsts<T(==,!new)>(xs: seq<T>): (r: seq<T>)
    ensures |r| <= |xs|
  {
    if xs == [] then []
    else
      var init, a := xs[..|xs| - 1], xs[|xs| - 1];
      if a in init then Firsts(init) else Firsts(init) + [a]
  }

  /** Each value of xs occurs in Firsts(xs) exactly once, and nothing else does. */
  lemma {:induction false} FirstsMeans<T(!new)>(xs: seq<T>)
    ensures Distinct(Firsts(xs))
    ensures forall x :: x in Firsts(xs) <==> x in xs
    decreases |xs|
  {
    if xs != [] {
      var init, a := xs[..|xs| - 1], xs[|xs| - 1];
      FirstsMeans(init);
      assert xs == init + [a];
    }
  }

  /** A duplicate-free sequence has exactly as many elements as its set of values. */
  lemma {:induction false} DistinctCard<T>(xs: seq<T>)
    requires Distinct(xs)
    ensures |set x | x in xs| == |xs|
    decreases |xs|
  {
    if xs != [] {
      var init, a := xs[..|xs| - 1], xs[|xs| - 1];
      assert Distinct(init);
      DistinctCard(init);
      assert a !in init;
      assert (set x | x in xs) == (set x | x in init) + {a} by {
        assert xs == init + [a];
      }
    }
  }

  lemma {:induction false} SumCons(a: int, xs: seq<int>)
    ensures Sum([a] + xs) == a + Sum(xs)
    decreases |xs|
  {
    if xs != [] {
      var init := xs[..|xs| - 1];
      assert ([a] + xs)[..|xs|] == [a] + init;
      SumCons(a, init);
    }
  }

  /** The counts in xs of the values listed in d, in the order of d. */
  function CountsOf<T(==)>(xs: seq<T>, d: seq<T>): (r: seq<int>)
    ensures |r| == |d|
    ensures forall k :: 0 <= k < |d| ==> r[k] == Count(xs, d[k])
  {
    if d == [] then [] else [Count(xs, d[0])] + CountsOf(xs, d[1..])
  }

  lemma {:induction false} SumCountsOf<T>(xs: seq<T>, d: seq<T>)
    ensures Sum(CountsOf(xs, d)) == CountSum(xs, d)
    decreases |d|
  {
    if d != [] {
      SumCountsOf(xs, d[1..]);
      SumCons(Count(xs, d[0]), CountsOf(xs, d[1..]));
    }
  }

  /** Counting every value at its first appearance: the counts of the distinct values add up to |xs|. */
  lemma CountsOfFirstsTotal<T(!new)>(xs: seq<T>)
    ensures Sum(CountsOf(xs, Firsts(xs))) == |xs|
  {
    FirstsMeans(xs);
    SumCountsOf(xs, Firsts(xs));
    CountSumTotal(xs, Firsts(xs));
  }

  /** Count over a concatenation. */
  lemma {:induction false} CountAppend<T>(xs: seq<T>, ys: seq<T>, t: T)
    ensures Count(xs + ys, t) == Count(xs, t) + Count(ys, t)
    decreases |ys|
  {
    if ys == [] {
      assert xs + ys == xs;
    } else {
      var init, a := ys[..|ys| - 1], ys[|ys| - 1];
      assert xs + ys == (xs + init) + [a];
      assert ys == init + [a];
      CountAppend(xs, init, t);
      CountSnoc(xs + init, a, t);
      CountSnoc(init, a, t);
    }
  }

  /** The value a counting dict holds for a, or 0 when a is not a key yet. */
  function Seen<T>(m: map<T, nat>, a: T): nat
  {
    if a in m then m[a] else 0
  }

  /** The counting dict after reading xs in order: each element's entry is created or incremented. */
  function CountMap<T>(xs: seq<T>): map<T, nat>
  {
    if xs == [] then map[]
    else
      var m := CountMap(xs[..|xs| - 1]);
      var a := xs[|xs| - 1];
      m[a := Seen(m, a) + 1]
  }

  /** The counting dict holds exactly the elements of xs, each with its number of occurrences. */
  lemma {:induction false} CountMapCounts<T>(xs: seq<T>)
    ensures forall t :: t in CountMap(xs) <==> t in xs
    ensures forall t :: Seen(CountMap(xs), t) == Count(xs, t)
    decreases |xs|
  {
    if xs != [] {
      var init, a := xs[..|xs| - 1], xs[|xs| - 1];
      CountMapCounts(init);
      assert forall t :: t in xs <==> t in init || t == a by {
        assert xs == init + [a];
      }
    }
  }

  /**
   * The loop step of a counting dict m over xs[..j]: reading xs[j] increments its entry, or creates
   * it (at once with 1, or with 0 and then incremented) when it is new, and it joins the keys when new.
   */
  lemma CountMapStep<T(!new)>(xs: seq<T>, j: nat, m: map<T, nat>)
    requires j < |xs| && m == CountMap(xs[..j])
    ensures xs[j] in m <==> xs[j] in xs[..j]
    ensures xs[j] in m ==> m[xs[j] := m[xs[j]] + 1] == CountMap(xs[..j + 1])
    ensures xs[j] !in m ==> m[xs[j] := 1] == CountMap(xs[..j + 1])
    ensures xs[j] !in m ==> m[xs[j] := 0][xs[j] := m[xs[j] := 0][xs[j]] + 1] == CountMap(xs[..j + 1])
    ensures xs[j] in m ==> Firsts(xs[..j + 1]) == Firsts(xs[..j])
    ensures xs[j] !in m ==> Firsts(xs[..j + 1]) == Firsts(xs[..j]) + [xs[j]]
  {
    assert xs[..j + 1] == xs[..j] + [xs[j]];
    CountMapAt(xs[..j], xs[j]);
    CountMapSnoc(xs[..j], xs[j]);
  }

  /** Reading one more element: its entry is created or incremented, and it joins the keys when new. */
  lemma CountMapSnoc<T(!new)>(xs: seq<T>, a: T)
    ensures CountMap(xs + [a]) == CountMap(xs)[a := Seen(CountMap(xs), a) + 1]
    ensures Firsts(xs + [a]) == if a in xs then Firsts(xs) else Firsts(xs) + [a]
  {
    assert (xs + [a])[..|xs|] == xs;
  }

  /** The entry of one value in the counting dict. */
  lemma CountMapAt<T>(xs: seq<T>, t: T)
    ensures t in CountMap(xs) <==> t in xs
    ensures Seen(CountMap(xs), t) == Count(xs, t)
  {
    CountMapCounts(xs);
  }

  /** The set of the values of xs, collected in order. */
  function ValueSet<T>(xs: seq<T>): (r: set<T>)
    ensures |r| <= |xs|
  {
    if xs == [] then {} else ValueSet(xs[..|xs| - 1]) + {xs[|xs| - 1]}
  }

  lemma {:induction false} ValueSetMembers<T>(xs: seq<T>)
    ensures forall t :: t in ValueSet(xs) <==> t in xs
    decreases |xs|
  {
    if xs != [] {
      var init := xs[..|xs| - 1];
      ValueSetMembers(init);
      assert xs == init + [xs[|xs| - 1]];
    }
  }

  /** A key set twice holds the second value. */
  lemma Overwrite<K, V>(m: map<K, V>, k: K, a: V, b: V)
    ensures m[k := a][k := b] == m[k := b]
  {
  }
}
