/**
 * The ordering the frontend sorts with: JavaScript's < on strings, which
 * compares character by character, a proper prefix being smaller; and
 * Array.prototype.sort with a comparator that answers -1, 0 or 1 by that
 * order on a key, which sorts stably.
 */
module Ordering {

  /** a < b on strings: the first differing character decides; a proper prefix is smaller. */
  predicate Less(a: string, b: string)
    decreases |a|
  {
    if a == [] then b != []
    else if b == [] then false
    else if a[0] != b[0] then a[0] < b[0]
    else Less(a[1..], b[1..])
  }

  predicate LessEq(a: string, b: string)
  {
    a == b || Less(a, b)
  }

  /** Two strings are equal or one is smaller, and never both smaller than each other. */
  lemma {:induction false} LessTotal(a: string, b: string)
    ensures a == b || Less(a, b) || Less(b, a)
    ensures !(Less(a, b) && Less(b, a))
    decreases |a|
  {
    if a != [] && b != [] && a[0] == b[0] {
      LessTotal(a[1..], b[1..]);
      assert Less(a, b) == Less(a[1..], b[1..]);
      assert Less(b, a) == Less(b[1..], a[1..]);
      if a[1..] == b[1..] {
        assert a == [a[0]] + a[1..] && b == [b[0]] + b[1..];
      }
    }
  }

  lemma {:induction false} LessTransitive(a: string, b: string, c: string)
    requires Less(a, b) && Less(b, c)
    ensures Less(a, c)
    decreases |a|
  {
    if a != [] && a[0] == b[0] && b[0] == c[0] {
      LessTransitive(a[1..], b[1..], c[1..]);
    }
  }

  lemma LessEqTransitive(a: string, b: string, c: string)
    requires LessEq(a, b) && LessEq(b, c)
    ensures LessEq(a, c)
  {
    if Less(a, b) && Less(b, c) {
      LessTransitive(a, b, c);
    }
  }

  /** The comparator of the sorts: -1, 0 or 1 as a is smaller, equal or greater. */
  function Compare(a: string, b: string): (r: int)
    ensures r == 0 <==> a == b
    ensures r < 0 <==> Less(a, b)
    ensures r > 0 <==> Less(b, a)
  {
    LessTotal(a, b);
    if Less(a, b) then -1 else if Less(b, a) then 1 else 0
  }

  /** Every element's key is at most every later element's key. */
  predicate SortedBy<T>(s: seq<T>, key: T -> string)
  {
    forall i, j :: 0 <= i < j < |s| ==> LessEq(key(s[i]), key(s[j]))
  }

  /** x placed after every element whose key is not greater than its own. */
  function Insert<T>(x: T, s: seq<T>, key: T -> string): (r: seq<T>)
    ensures |r| == |s| + 1
    decreases |s|
  {
    if s == [] then [x]
    else if Compare(key(x), key(s[0])) < 0 then [x] + s
    else [s[0]] + Insert(x, s[1..], key)
  }

  /** Inserting adds the element once and keeps the others. */
  lemma {:induction false} InsertPermutes<T>(x: T, s: seq<T>, key: T -> string)
    ensures multiset(Insert(x, s, key)) == multiset(s) + multiset{x}
    decreases |s|
  {
    if s != [] && Compare(key(x), key(s[0])) >= 0 {
      InsertPermutes(x, s[1..], key);
      assert s == [s[0]] + s[1..];
    }
  }

  /** The stable sort by key: the elements in order of their keys, equal keys in their original order. */
  function SortBy<T>(xs: seq<T>, key: T -> string): (r: seq<T>)
    ensures |r| == |xs|
    decreases |xs|
  {
    if xs == [] then []
    else Insert(xs[|xs| - 1], SortBy(xs[..|xs| - 1], key), key)
  }

  lemma {:induction false} InsertSorted<T>(x: T, s: seq<T>, key: T -> string)
    requires SortedBy(s, key)
    ensures SortedBy(Insert(x, s, key), key)
    decreases |s|
  {
    if s != [] && Compare(key(x), key(s[0])) >= 0 {
      assert SortedBy(s[1..], key) by {
        forall i, j | 0 <= i < j < |s[1..]| ensures LessEq(key(s[1..][i]), key(s[1..][j])) {
          assert s[1..][i] == s[i + 1] && s[1..][j] == s[j + 1];
        }
      }
      InsertSorted(x, s[1..], key);
      InsertBehindHead(x, s, key);
    } else if s != [] {
      InsertInFront(x, s, key);
    }
  }

  /** x goes behind the head: the head is at most everything the rest becomes. */
  lemma InsertBehindHead<T>(x: T, s: seq<T>, key: T -> string)
    requires s != [] && SortedBy(s, key) && Compare(key(x), key(s[0])) >= 0
    requires SortedBy(Insert(x, s[1..], key), key)
    ensures SortedBy(Insert(x, s, key), key)
  {
    var rest := Insert(x, s[1..], key);
    LessTotal(key(x), key(s[0]));
    forall k | 0 <= k < |s[1..]| ensures LessEq(key(s[0]), key(s[1..][k])) {
      assert s[1..][k] == s[k + 1];
    }
    InsertAbove(x, s[1..], key, key(s[0]));
    var r := [s[0]] + rest;
    forall i, j | 0 <= i < j < |r| ensures LessEq(key(r[i]), key(r[j])) {
      if i > 0 {
        assert r[i] == rest[i - 1] && r[j] == rest[j - 1];
      } else {
        assert r[j] == rest[j - 1];
      }
    }
  }

  /** A lower bound of x's key and of every key of s is a lower bound of every key after inserting. */
  lemma {:induction false} InsertAbove<T>(x: T, s: seq<T>, key: T -> string, low: string)
    requires LessEq(low, key(x))
    requires forall k :: 0 <= k < |s| ==> LessEq(low, key(s[k]))
    ensures forall j :: 0 <= j < |Insert(x, s, key)| ==> LessEq(low, key(Insert(x, s, key)[j]))
    decreases |s|
  {
    if s != [] && Compare(key(x), key(s[0])) >= 0 {
      forall k | 0 <= k < |s[1..]| ensures LessEq(low, key(s[1..][k])) {
        assert s[1..][k] == s[k + 1];
      }
      InsertAbove(x, s[1..], key, low);
      var r := Insert(x, s, key);
      forall j | 0 <= j < |r| ensures LessEq(low, key(r[j])) {
        if j > 0 {
          assert r[j] == Insert(x, s[1..], key)[j - 1];
        }
      }
    }
  }

  /** x goes in front: its key is below the head's, so below everything. */
  lemma InsertInFront<T>(x: T, s: seq<T>, key: T -> string)
    requires s != [] && SortedBy(s, key) && Compare(key(x), key(s[0])) < 0
    ensures SortedBy(Insert(x, s, key), key)
  {
    LessTotal(key(x), key(s[0]));
    var r := [x] + s;
    forall i, j | 0 <= i < j < |r| ensures LessEq(key(r[i]), key(r[j])) {
      if i == 0 {
        assert r[j] == s[j - 1];
        if j > 1 {
          LessEqTransitive(key(x), key(s[0]), key(s[j - 1]));
        }
      } else {
        assert r[i] == s[i - 1] && r[j] == s[j - 1];
      }
    }
  }

  /** The sort orders by key and keeps every element exactly as often as it occurs. */
  lemma {:induction false} SortBySorted<T>(xs: seq<T>, key: T -> string)
    ensures SortedBy(SortBy(xs, key), key)
    ensures multiset(SortBy(xs, key)) == multiset(xs)
    decreases |xs|
  {
    if xs != [] {
      SortBySorted(xs[..|xs| - 1], key);
      InsertSorted(xs[|xs| - 1], SortBy(xs[..|xs| - 1], key), key);
      InsertPermutes(xs[|xs| - 1], SortBy(xs[..|xs| - 1], key), key);
      assert xs == xs[..|xs| - 1] + [xs[|xs| - 1]];
    }
  }

  /** An already sorted sequence is left as it is. */
  lemma {:induction false} SortBySortedFixed<T>(xs: seq<T>, key: T -> string)
    requires SortedBy(xs, key)
    ensures SortBy(xs, key) == xs
    decreases |xs|
  {
    if xs != [] {
      var init, last := xs[..|xs| - 1], xs[|xs| - 1];
      assert SortedBy(init, key) by {
        forall i, j | 0 <= i < j < |init| ensures LessEq(key(init[i]), key(init[j])) {
          assert init[i] == xs[i] && init[j] == xs[j];
        }
      }
      SortBySortedFixed(init, key);
      forall i | 0 <= i < |init| ensures LessEq(key(init[i]), key(last)) {
        assert init[i] == xs[i];
      }
      InsertAfterAll(last, init, key);
      assert init + [last] == xs;
    }
  }

  /** An element whose key is not smaller than any key goes to the end. */
  lemma {:induction false} InsertAfterAll<T>(x: T, s: seq<T>, key: T -> string)
    requires forall i :: 0 <= i < |s| ==> LessEq(key(s[i]), key(x))
    ensures Insert(x, s, key) == s + [x]
    decreases |s|
  {
    if s != [] {
      LessTotal(key(s[0]), key(x));
      InsertAfterAll(x, s[1..], key);
      assert s == [s[0]] + s[1..];
    }
  }
}
