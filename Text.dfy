/**
 * String operations the repository uses from Python's and JavaScript's
 * standard libraries: case mapping (ASCII letters), str.join, str.split with a
 * one-character separator, str.replace, re.sub of a character-class run by one
 * character, str.strip, and decimal rendering of integers.
 */
module Text {

  // ---------------------------------------------------------------- case

  predicate IsUpper(c: char) { 'A' <= c <= 'Z' }
  predicate IsLower(c: char) { 'a' <= c <= 'z' }

  /** Python's str.isspace() for one character, which is also what \s matches in a str regex. */
  predicate IsSpace(c: char)
  {
    || '\U{0009}' <= c <= '\U{000D}' || '\U{001C}' <= c <= '\U{001F}' || c == ' '
    || c == '\U{0085}' || c == '\U{00A0}' || c == '\U{1680}' || '\U{2000}' <= c <= '\U{200A}'
    || c == '\U{2028}' || c == '\U{2029}' || c == '\U{202F}' || c == '\U{205F}' || c == '\U{3000}'
  }

  function LowerChar(c: char): (r: char)
    ensures !IsUpper(r)
    ensures IsUpper(c) ==> IsLower(r) && r as int == c as int + 32
    ensures !IsUpper(c) ==> r == c
  {
    if IsUpper(c) then (c as int + 32) as char else c
  }

  function UpperChar(c: char): (r: char)
    ensures !IsLower(r)
    ensures IsLower(c) ==> IsUpper(r) && r as int == c as int - 32
    ensures !IsLower(c) ==> r == c
  {
    if IsLower(c) then (c as int - 32) as char else c
  }

  /** str.lower() */
  function Lower(s: string): (r: string)
    ensures |r| == |s|
    ensures forall i :: 0 <= i < |s| ==> r[i] == LowerChar(s[i])
  {
    if s == [] then [] else [LowerChar(s[0])] + Lower(s[1..])
  }

  predicate NoUpper(s: string) { forall i :: 0 <= i < |s| ==> !IsUpper(s[i]) }

  lemma LowerIdempotent(s: string)
    ensures NoUpper(Lower(s)) && Lower(Lower(s)) == Lower(s)
  {
  }

  lemma LowerOfLowered(s: string)
    requires NoUpper(s)
    ensures Lower(s) == s
  {
  }

  // ---------------------------------------------------------------- join / split

  /** sep.join(parts) */
  function Join(sep: string, parts: seq<string>): (r: string)
    ensures |parts| == 1 ==> r == parts[0]
  {
    if |parts| == 0 then ""
    else if |parts| == 1 then parts[0]
    else parts[0] + sep + Join(sep, parts[1..])
  }

  lemma JoinAppend(sep: string, parts: seq<string>, last: string)
    requires |parts| >= 1
    ensures Join(sep, parts + [last]) == Join(sep, parts) + sep + last
    decreases |parts|
  {
    if |parts| == 1 {
      assert parts + [last] == [parts[0], last];
    } else {
      assert (parts + [last])[1..] == parts[1..] + [last];
      JoinAppend(sep, parts[1..], last);
    }
  }

  /** The join is non-empty as soon as one part is. */
  lemma {:induction false} JoinNonEmpty(sep: string, parts: seq<string>, k: nat)
    requires k < |parts| && parts[k] != ""
    ensures Join(sep, parts) != ""
    decreases |parts|
  {
    if |parts| >= 2 && k > 0 {
      JoinNonEmpty(sep, parts[1..], k - 1);
    }
  }

  /** A character in neither the separator nor any part is not in the join. */
  lemma {:induction false} JoinWithout(c: char, sep: string, parts: seq<string>)
    requires c !in sep
    requires forall i :: 0 <= i < |parts| ==> c !in parts[i]
    ensures c !in Join(sep, parts)
    decreases |parts|
  {
    if |parts| >= 2 {
      JoinWithout(c, sep, parts[1..]);
    }
  }

  /** The join starts with the first part. */
  lemma JoinHead(sep: string, parts: seq<string>)
    requires |parts| >= 1
    ensures parts[0] <= Join(sep, parts)
  {
  }

  /** Splitting a join by a separator that occurs in no part gives the parts back. */
  lemma {:induction false} JoinSplit(c: char, parts: seq<string>)
    requires |parts| >= 1
    requires forall i :: 0 <= i < |parts| ==> c !in parts[i]
    ensures Split(Join([c], parts), c) == parts
    decreases |parts|
  {
    if |parts| >= 2 {
      JoinSplit(c, parts[1..]);
      assert Join([c], parts) == parts[0] + [c] + Join([c], parts[1..]);
      SplitCons(parts[0], c, Join([c], parts[1..]));
    }
  }

  function IndexOf(s: string, c: char): (k: nat)
    requires c in s
    ensures k < |s| && s[k] == c && c !in s[..k]
  {
    if s[0] == c then 0 else 1 + IndexOf(s[1..], c)
  }

  /** s.split(c) for a one-character separator: never empty, pieces free of c. */
  function Split(s: string, c: char): (r: seq<string>)
    ensures |r| >= 1
    ensures forall i :: 0 <= i < |r| ==> c !in r[i]
    decreases |s|
  {
    if c !in s then [s]
    else
      var k := IndexOf(s, c);
      [s[..k]] + Split(s[k + 1..], c)
  }

  /** Splitting at the first separator: the part before it, then the split of the rest. */
  lemma SplitCons(a: string, c: char, b: string)
    requires c !in a
    ensures Split(a + [c] + b, c) == [a] + Split(b, c)
  {
    var s := a + [c] + b;
    assert s[|a|] == c;
    var k := IndexOf(s, c);
    assert s[..k] == a && s[k + 1..] == b;
  }

  lemma SplitThree(a: string, c: char, b: string, d: string)
    requires c !in a && c !in b && c !in d
    ensures Split(a + [c] + b + [c] + d, c) == [a, b, d]
  {
    assert a + [c] + b + [c] + d == a + [c] + (b + [c] + d);
    SplitCons(a, c, b + [c] + d);
    SplitCons(b, c, d);
  }

  /** Joining the pieces of a split with the separator gives the string back. */
  lemma {:induction false} SplitJoin(s: string, c: char)
    ensures Join([c], Split(s, c)) == s
    decreases |s|
  {
    if c in s {
      var k := IndexOf(s, c);
      SplitJoin(s[k + 1..], c);
      var rest := Split(s[k + 1..], c);
      assert Split(s, c) == [s[..k]] + rest;
      assert ([s[..k]] + rest)[1..] == rest;
      assert s == s[..k] + [c] + s[k + 1..];
    }
  }

  // ---------------------------------------------------------------- replace

  predicate StartsWithAt(s: string, i: nat, pat: string)
  {
    i + |pat| <= |s| && s[i..i + |pat|] == pat
  }

  predicate Contains(s: string, pat: string)
  {
    exists i: nat :: i <= |s| && StartsWithAt(s, i, pat)
  }

  /** s.replace(pat, v): leftmost, non-overlapping occurrences, scanned left to right. */
  function Replace(s: string, pat: string, v: string): (r: string)
    requires |pat| > 0
    decreases |s|
  {
    if |s| < |pat| then s
    else if s[..|pat|] == pat then v + Replace(s[|pat|..], pat, v)
    else [s[0]] + Replace(s[1..], pat, v)
  }

  /** Without an occurrence of the pattern, replacing leaves the text unchanged. */
  lemma {:induction false} ReplaceAbsent(s: string, pat: string, v: string)
    requires |pat| > 0 && !Contains(s, pat)
    ensures Replace(s, pat, v) == s
    decreases |s|
  {
    if |s| >= |pat| {
      assert !StartsWithAt(s, 0, pat);
      assert s[0..|pat|] == s[..|pat|];
      if !Contains(s[1..], pat) {
        ReplaceAbsent(s[1..], pat, v);
      } else {
        var i: nat :| i <= |s[1..]| && StartsWithAt(s[1..], i, pat);
        assert s[i + 1..i + 1 + |pat|] == s[1..][i..i + |pat|];
        assert StartsWithAt(s, i + 1, pat);
      }
    }
  }

  /** Replacing a character that does not occur leaves the text unchanged. */
  lemma {:induction false} ReplaceCharAbsent(s: string, c: char, v: string)
    requires c !in s
    ensures Replace(s, [c], v) == s
    decreases |s|
  {
    if |s| >= 1 {
      assert s[..1] == [s[0]] != [c];
      ReplaceCharAbsent(s[1..], c, v);
      assert [s[0]] + s[1..] == s;
    }
  }

  /** Replacing a character by a value without it leaves no occurrence of the character. */
  lemma {:induction false} ReplaceCharGone(s: string, c: char, v: string)
    requires c !in v
    ensures c !in Replace(s, [c], v)
    decreases |s|
  {
    if |s| >= 1 {
      ReplaceCharGone(s[1..], c, v);
    }
  }

  /** A text that is exactly the pattern becomes the value. */
  lemma ReplaceWhole(pat: string, v: string)
    requires |pat| > 0
    ensures Replace(pat, pat, v) == v
  {
    assert pat[..|pat|] == pat;
    assert pat[|pat|..] == [];
    assert Replace([], pat, v) == [];
    assert v + [] == v;
  }

  // ---------------------------------------------------------------- regex-like

  /** re.sub("[C]+", [rep], s): every maximal run of class characters becomes one rep. */
  function CollapseRuns(s: string, inClass: char -> bool, rep: char): (r: string)
  {
    CollapseFrom(s, inClass, rep, false)
  }

  function CollapseFrom(s: string, inClass: char -> bool, rep: char, inRun: bool): (r: string)
    ensures forall i :: 0 <= i < |r| ==> !inClass(r[i]) || r[i] == rep
    ensures |r| <= |s|
    decreases |s|
  {
    if s == [] then []
    else if inClass(s[0]) then (if inRun then [] else [rep]) + CollapseFrom(s[1..], inClass, rep, true)
    else [s[0]] + CollapseFrom(s[1..], inClass, rep, false)
  }

  /**
   * After collapsing, no two class characters are adjacent, a collapse that starts inside a run
   * does not start with a class character, and every character is the replacement or one of the input's.
   */
  lemma {:induction false} CollapseNoRuns(s: string, inClass: char -> bool, rep: char, inRun: bool)
    ensures forall i :: 0 <= i < |CollapseFrom(s, inClass, rep, inRun)| - 1 && inClass(CollapseFrom(s, inClass, rep, inRun)[i]) ==>
      !inClass(CollapseFrom(s, inClass, rep, inRun)[i + 1])
    ensures inRun ==> CollapseFrom(s, inClass, rep, inRun) == [] || !inClass(CollapseFrom(s, inClass, rep, inRun)[0])
    ensures forall i :: 0 <= i < |CollapseFrom(s, inClass, rep, inRun)| ==>
      CollapseFrom(s, inClass, rep, inRun)[i] == rep || CollapseFrom(s, inClass, rep, inRun)[i] in s
    decreases |s|
  {
    if s != [] {
      CollapseNoRuns(s[1..], inClass, rep, inClass(s[0]));
      var tail := CollapseFrom(s[1..], inClass, rep, inClass(s[0]));
      var head: string := if inClass(s[0]) then (if inRun then [] else [rep]) else [s[0]];
      var r := head + tail;
      assert CollapseFrom(s, inClass, rep, inRun) == r;
      assert forall k :: 0 <= k < |tail| - 1 && inClass(tail[k]) ==> !inClass(tail[k + 1]);
      assert tail == [] || !inClass(s[0]) || !inClass(tail[0]);
      assert forall k :: 0 <= k < |tail| ==> tail[k] == rep || tail[k] in s[1..];
      forall i | 0 <= i < |r| - 1 && inClass(r[i]) ensures !inClass(r[i + 1]) {
        if i >= |head| {
          assert r[i] == tail[i - |head|] && r[i + 1] == tail[i + 1 - |head|];
        } else {
          assert r[i + 1] == tail[0];
        }
      }
      forall i | 0 <= i < |r| ensures r[i] == rep || r[i] in s {
        if i >= |head| {
          assert r[i] == tail[i - |head|];
          assert tail[i - |head|] == rep || tail[i - |head|] in s[1..];
        }
      }
    }
  }

  /** A string with no class character is left as it is. */
  lemma {:induction false} CollapseNoClass(s: string, inClass: char -> bool, rep: char, inRun: bool)
    requires forall i :: 0 <= i < |s| ==> !inClass(s[i])
    ensures CollapseFrom(s, inClass, rep, inRun) == s
    decreases |s|
  {
    if s != [] {
      CollapseNoClass(s[1..], inClass, rep, false);
    }
  }

  /** Collapsing distributes over a tail with no class character. */
  lemma {:induction false} CollapseAppendPlain(a: string, b: string, inClass: char -> bool, rep: char, inRun: bool)
    requires forall i :: 0 <= i < |b| ==> !inClass(b[i])
    ensures CollapseFrom(a + b, inClass, rep, inRun) == CollapseFrom(a, inClass, rep, inRun) + b
    decreases |a|
  {
    if a == [] {
      assert a + b == b;
      CollapseNoClass(b, inClass, rep, inRun);
    } else {
      assert (a + b)[0] == a[0] && (a + b)[1..] == a[1..] + b;
      CollapseAppendPlain(a[1..], b, inClass, rep, inClass(a[0]));
    }
  }

  /** A text whose class characters are single copies of rep is left as it is. */
  lemma {:induction false} CollapseSingle(s: string, inClass: char -> bool, rep: char, inRun: bool)
    requires forall i :: 0 <= i < |s| && inClass(s[i]) ==> s[i] == rep && (i + 1 < |s| ==> !inClass(s[i + 1]))
    requires inRun ==> s == [] || !inClass(s[0])
    ensures CollapseFrom(s, inClass, rep, inRun) == s
    decreases |s|
  {
    if s != [] {
      CollapseSingle(s[1..], inClass, rep, inClass(s[0]));
    }
  }

  /** Lower-casing commutes with collapsing when the class and rep are not letters. */
  lemma {:induction false} CollapseLower(s: string, inClass: char -> bool, rep: char, inRun: bool)
    requires forall c :: inClass(c) ==> !IsUpper(c) && !IsLower(c)
    requires !IsUpper(rep)
    ensures Lower(CollapseFrom(s, inClass, rep, inRun)) == CollapseFrom(Lower(s), inClass, rep, inRun)
    decreases |s|
  {
    if s != [] {
      CollapseLower(s[1..], inClass, rep, inClass(s[0]));
      assert Lower(s)[1..] == Lower(s[1..]);
      assert Lower(s)[0] == LowerChar(s[0]);
      assert inClass(LowerChar(s[0])) == inClass(s[0]);
      var tail := CollapseFrom(s[1..], inClass, rep, inClass(s[0]));
      if inClass(s[0]) {
        assert Lower((if inRun then [] else [rep]) + tail) == (if inRun then [] else [rep]) + Lower(tail);
      } else {
        assert Lower([s[0]] + tail) == [LowerChar(s[0])] + Lower(tail);
      }
    }
  }

  // ---------------------------------------------------------------- strip

  /** s.lstrip(chars). */
  function StripLeft(s: string, drop: char -> bool): (r: string)
    ensures |r| <= |s|
    ensures r == [] || !drop(r[0])
    decreases |s|
  {
    if s != [] && drop(s[0]) then StripLeft(s[1..], drop) else s
  }

  /** s.rstrip(chars). */
  function StripRight(s: string, drop: char -> bool): (r: string)
    ensures |r| <= |s|
    ensures r == [] || !drop(r[|r| - 1])
    decreases |s|
  {
    if s != [] && drop(s[|s| - 1]) then StripRight(s[..|s| - 1], drop) else s
  }

  /** What lstrip keeps is a suffix, and everything before it is dropped. */
  lemma {:induction false} StripLeftSuffix(s: string, drop: char -> bool)
    ensures var r := StripLeft(s, drop); r == s[|s| - |r|..] && forall i :: 0 <= i < |s| - |r| ==> drop(s[i])
    decreases |s|
  {
    if s != [] && drop(s[0]) {
      StripLeftSuffix(s[1..], drop);
    }
  }

  /** What rstrip keeps is a prefix, and everything after it is dropped. */
  lemma {:induction false} StripRightPrefix(s: string, drop: char -> bool)
    ensures var r := StripRight(s, drop); r == s[..|r|] && forall i :: |r| <= i < |s| ==> drop(s[i])
    decreases |s|
  {
    if s != [] && drop(s[|s| - 1]) {
      StripRightPrefix(s[..|s| - 1], drop);
    }
  }

  /** Stripping the right end stops at once when the last character is kept. */
  lemma StripRightKeeps(x: string, d: string, drop: char -> bool)
    requires d != [] && !drop(d[|d| - 1])
    ensures StripRight(x + d, drop) == x + d
  {
    assert (x + d)[|x + d| - 1] == d[|d| - 1];
  }

  /** s.strip(chars): drops the given characters from both ends. */
  function Strip(s: string, drop: char -> bool): (r: string)
    ensures r == [] || (!drop(r[0]) && !drop(r[|r| - 1]))
    ensures |r| <= |s|
  {
    var l := StripLeft(s, drop);
    StripRightPrefix(l, drop);
    StripRight(l, drop)
  }

  /** Every character strip keeps is one of the input's. */
  lemma StripFrom(s: string, drop: char -> bool)
    ensures forall i :: 0 <= i < |Strip(s, drop)| ==> Strip(s, drop)[i] in s
  {
    var l := StripLeft(s, drop);
    StripLeftSuffix(s, drop);
    StripRightPrefix(l, drop);
    var r := Strip(s, drop);
    forall i | 0 <= i < |r| ensures r[i] in s {
      assert r[i] == l[i] == s[|s| - |l| + i];
    }
  }

  /** What strip keeps is a contiguous slice of the input. */
  lemma StripSlice(s: string, drop: char -> bool) returns (off: nat)
    ensures off + |Strip(s, drop)| <= |s| && Strip(s, drop) == s[off..off + |Strip(s, drop)|]
  {
    var l := StripLeft(s, drop);
    StripLeftSuffix(s, drop);
    StripRightPrefix(l, drop);
    off := |s| - |l|;
  }

  /** Stripping the left end stops at a tail that starts with a kept character. */
  lemma {:induction false} StripLeftAppend(x: string, d: string, drop: char -> bool)
    requires d != [] && !drop(d[0])
    ensures StripLeft(x + d, drop) == StripLeft(x, drop) + d
    decreases |x|
  {
    if x == [] {
      assert x + d == d;
    } else {
      assert (x + d)[0] == x[0] && (x + d)[1..] == x[1..] + d;
      StripLeftAppend(x[1..], d, drop);
    }
  }

  lemma StripClean(s: string, drop: char -> bool)
    requires s == [] || (!drop(s[0]) && !drop(s[|s| - 1]))
    ensures Strip(s, drop) == s
  {
  }

  /** A dropped character in front is stripped away. */
  lemma StripDroppedFront(c: char, s: string, drop: char -> bool)
    requires drop(c)
    ensures Strip([c] + s, drop) == Strip(s, drop)
  {
    assert ([c] + s)[1..] == s;
  }

  /** lstrip of a text with only dropped characters is empty. */
  lemma {:induction false} StripLeftAllDropped(s: string, drop: char -> bool)
    requires forall i :: 0 <= i < |s| ==> drop(s[i])
    ensures StripLeft(s, drop) == []
    decreases |s|
  {
    if s != [] {
      StripLeftAllDropped(s[1..], drop);
    }
  }

  /** lstrip stops inside x as soon as x has a kept character, whatever follows. */
  lemma {:induction false} StripLeftAppendKept(x: string, d: string, drop: char -> bool, k: nat)
    requires k < |x| && !drop(x[k])
    ensures StripLeft(x + d, drop) == StripLeft(x, drop) + d
    decreases |x|
  {
    assert (x + d)[0] == x[0];
    if drop(x[0]) {
      assert (x + d)[1..] == x[1..] + d;
      StripLeftAppendKept(x[1..], d, drop, k - 1);
    }
  }

  /** A dropped character at the end is stripped away. */
  lemma StripDroppedBack(s: string, c: char, drop: char -> bool)
    requires drop(c)
    ensures Strip(s + [c], drop) == Strip(s, drop)
  {
    if k :| 0 <= k < |s| && !drop(s[k]) {
      StripLeftAppendKept(s, [c], drop, k);
      var l := StripLeft(s, drop);
      assert (l + [c])[..|l|] == l;
    } else {
      StripLeftAllDropped(s, drop);
      StripLeftAllDropped(s + [c], drop);
    }
  }

  function StripSpace(s: string): (r: string)
    ensures r == [] || (!IsSpace(r[0]) && !IsSpace(r[|r| - 1]))
  {
    Strip(s, IsSpace)
  }

  predicate IsBlank(s: string) { forall i :: 0 <= i < |s| ==> IsSpace(s[i]) }

  // ---------------------------------------------------------------- numbers

  function DigitChar(d: nat): (c: char)
    requires d < 10
    ensures '0' <= c <= '9'
  {
    ('0' as int + d) as char
  }

  /** str(n) for a natural number. */
  function NatToString(n: nat): (r: string)
    ensures |r| >= 1
    ensures forall i :: 0 <= i < |r| ==> '0' <= r[i] <= '9'
    decreases n
  {
    if n < 10 then [DigitChar(n)] else NatToString(n / 10) + [DigitChar(n % 10)]
  }

  /** str(i) / toString() for an integer. */
  function IntToString(i: int): (r: string)
    ensures |r| >= 1
    ensures i < 0 <==> r[0] == '-'
  {
    if i < 0 then "-" + NatToString(-i) else NatToString(i)
  }

  function Pow10(k: nat): (p: nat)
    ensures p >= 1
  {
    if k == 0 then 1 else 10 * Pow10(k - 1)
  }

  /** A number of at least 10^k needs more than k digits. */
  lemma {:induction false} NatToStringLength(n: nat, k: nat)
    requires n >= Pow10(k)
    ensures |NatToString(n)| > k
    decreases k
  {
    if k > 0 {
      NatToStringLength(n / 10, k - 1);
    }
  }

  /** Decimal rendering is injective. */
  lemma {:induction false} NatToStringInjective(a: nat, b: nat)
    requires NatToString(a) == NatToString(b)
    ensures a == b
    decreases a
  {
    if a >= 10 && b >= 10 {
      var ra, rb := NatToString(a), NatToString(b);
      assert ra[..|ra| - 1] == NatToString(a / 10);
      assert rb[..|rb| - 1] == NatToString(b / 10);
      NatToStringInjective(a / 10, b / 10);
      assert ra[|ra| - 1] == DigitChar(a % 10);
      assert rb[|rb| - 1] == DigitChar(b % 10);
    }
  }

  // ---------------------------------------------------------------- sorted keys

  predicate StrictlyAscending(s: seq<int>)
  {
    forall i, j :: 0 <= i < j < |s| ==> s[i] < s[j]
  }

  function InsertAscending(x: int, s: seq<int>): (r: seq<int>)
    requires StrictlyAscending(s)
    ensures StrictlyAscending(r)
    ensures forall y :: y in r <==> y in s || y == x
    ensures x in s ==> r == s
    ensures |r| <= |s| + 1
  {
    if s == [] then [x]
    else if x < s[0] then
      AscendingCons(x, s);
      [x] + s
    else if x == s[0] then s
    else
      var rest := InsertAscending(x, s[1..]);
      HeadBelowTail(s);
      AscendingCons(s[0], rest);
      [s[0]] + rest
  }

  lemma HeadBelowTail(s: seq<int>)
    requires StrictlyAscending(s) && s != []
    ensures forall y :: y in s[1..] ==> s[0] < y
  {
    forall y | y in s[1..] ensures s[0] < y {
      var m :| 0 <= m < |s[1..]| && s[1..][m] == y;
      assert s[m + 1] == y;
    }
  }

  lemma AscendingCons(a: int, rest: seq<int>)
    requires StrictlyAscending(rest) && forall y :: y in rest ==> a < y
    ensures StrictlyAscending([a] + rest)
  {
    var r := [a] + rest;
    forall i, j | 0 <= i < j < |r| ensures r[i] < r[j] {
      assert r[j] == rest[j - 1];
      if i > 0 {
        assert r[i] == rest[i - 1];
      } else {
        assert rest[j - 1] in rest;
      }
    }
  }

  /** sorted(set(xs)): the distinct values of xs in ascending order. */
  function SortedDistinct(xs: seq<int>): (r: seq<int>)
    ensures StrictlyAscending(r)
    ensures forall y :: y in r <==> y in xs
    ensures |r| <= |xs|
  {
    if xs == [] then []
    else
      var r := InsertAscending(xs[|xs| - 1], SortedDistinct(xs[..|xs| - 1]));
      assert forall y :: y in xs <==> y in xs[..|xs| - 1] || y == xs[|xs| - 1];
      r
  }
}
