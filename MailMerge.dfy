/**
 * Placeholder substitution in mail templates: every "{{key}}" is replaced by
 * its value, one key after the other in the order of the data. The mail
 * commands and the registration view share this rule.
 */
module MailMerge {
  import Text

  /** The placeholder of a key: the key between double braces. */
  function Placeholder(key: string): (r: string)
    ensures |r| == |key| + 4 && r[0] == '{'
  {
    "{{" + key + "}}"
  }

  /** The text after replacing the placeholders of data's keys, in data's order. */
  function Filled(text: string, data: seq<(string, string)>): string
    decreases |data|
  {
    if data == [] then text
    else Filled(Text.Replace(text, Placeholder(data[0].0), data[0].1), data[1..])
  }

  /** The text with every placeholder of data's keys replaced, keys in the order of data. */
  method FillPlaceholders(text: string, data: seq<(string, string)>) returns (r: string)
    ensures r == Filled(text, data)
  {
    r := text;
    for i := 0 to |data|
      invariant Filled(r, data[i..]) == Filled(text, data)
    {
      assert data[i..][0] == data[i] && data[i..][1..] == data[i + 1..];
      r := Text.Replace(r, Placeholder(data[i].0), data[i].1);
    }
    assert data[|data|..] == [];
  }

  /** A text without any of data's placeholders is returned unchanged. */
  lemma {:induction false} FillAbsent(text: string, data: seq<(string, string)>)
    requires forall k :: 0 <= k < |data| ==> !Text.Contains(text, Placeholder(data[k].0))
    ensures Filled(text, data) == text
    decreases |data|
  {
    if data != [] {
      Text.ReplaceAbsent(text, Placeholder(data[0].0), data[0].1);
      forall k | 0 <= k < |data[1..]| ensures !Text.Contains(text, Placeholder(data[1..][k].0)) {
        assert data[1..][k] == data[k + 1];
      }
      FillAbsent(text, data[1..]);
    }
  }

  /** Replacement passes over a prefix that lacks the pattern's first character. */
  lemma {:induction false} ReplacePlainPrefix(a: string, rest: string, pat: string, v: string)
    requires |pat| > 0 && pat[0] !in a
    ensures Text.Replace(a + rest, pat, v) == a + Text.Replace(rest, pat, v)
    decreases |a|
  {
    if a == [] {
      assert a + rest == rest;
    } else if |a + rest| >= |pat| {
      var s := a + rest;
      assert s[..|pat|] != pat by {
        assert s[..|pat|][0] == a[0];
      }
      assert Text.Replace(s, pat, v) == [s[0]] + Text.Replace(s[1..], pat, v);
      assert s[0] == a[0] && s[1..] == a[1..] + rest;
      ReplacePlainPrefix(a[1..], rest, pat, v);
      assert a == [a[0]] + a[1..];
    }
  }

  /** A template with one placeholder between brace-free texts gets the value in its place. */
  lemma FillSingle(before: string, key: string, after: string, value: string)
    requires '{' !in before && '{' !in after
    ensures Filled(before + Placeholder(key) + after, [(key, value)]) == before + value + after
  {
    var pat := Placeholder(key);
    var t := before + pat + after;
    assert t == before + (pat + after);
    ReplacePlainPrefix(before, pat + after, pat, value);
    assert (pat + after)[..|pat|] == pat && (pat + after)[|pat|..] == after;
    ReplacePlainPrefix(after, [], pat, value);
    assert after + [] == after;
    assert Text.Replace([], pat, value) == [];
    assert [(key, value)][1..] == [];
  }

  /** Keys are applied in order: a value that holds a later key's placeholder is filled in as well. */
  lemma FillInOrder(first: string, second: string, value: string)
    ensures Filled(Placeholder(first), [(first, Placeholder(second)), (second, value)]) == value
  {
    var data := [(first, Placeholder(second)), (second, value)];
    Text.ReplaceWhole(Placeholder(first), Placeholder(second));
    Text.ReplaceWhole(Placeholder(second), value);
    assert data[1..] == [(second, value)];
    assert Filled(Placeholder(first), data) == Filled(Placeholder(second), [(second, value)]);
    assert [(second, value)][1..] == [];
    assert Filled(Placeholder(second), [(second, value)]) == Filled(value, []);
  }
}
