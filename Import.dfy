/**
 * The normalisers of the `import` management command: name capitalisation
 * with the Dutch IJ rule, the tussenvoegsel/surname split, department name
 * normalisation through the renames table, department lookup, fresh user
 * names, and the loop that turns the three choice columns of a row into
 * registrations.
 */
module Import {
  import opened Wrappers
  import opened Text
  import opened Domain

  // ------------------------------------------------------------------ capitalize

  /** The characters after which the next letter is capitalised; they are copied unchanged. */
  predicate IsSeparator(c: char) { c == ' ' || c == '-' || c == '.' || c == '\'' }

  /** The loop state of capitalize: the output so far, capitalize_next and prev (the last output character). */
  datatype CapState = CapState(output: string, capitalizeNext: bool, prev: string)

  function CapStep(st: CapState, c: char): CapState
  {
    if IsSeparator(c) then CapState(st.output + [c], true, [c])
    else if st.capitalizeNext then CapState(st.output + [UpperChar(c)], false, [UpperChar(c)])
    else
      var d := if st.prev == "I" && LowerChar(c) == 'j' then UpperChar(c) else LowerChar(c);
      CapState(st.output + [d], false, [d])
  }

  /** The loop state after the first i characters of value. */
  function CapPrefix(value: string, i: nat): CapState
    requires i <= |value|
  {
    if i == 0 then CapState("", true, "") else CapStep(CapPrefix(value, i - 1), value[i - 1])
  }

  function Capitalized(value: string): string
  {
    CapPrefix(value, |value|).output
  }

  /**
   * The character capitalize produces at position i, described by the input and the output
   * before it: a separator is kept, a character at the start or after a separator is upper-cased,
   * a j after an output I is upper-cased, anything else is lower-cased.
   */
  function CapChar(value: string, out: string, i: nat): char
    requires i < |value| && i <= |out|
  {
    if IsSeparator(value[i]) then value[i]
    else if i == 0 || IsSeparator(value[i - 1]) then UpperChar(value[i])
    else if out[i - 1] == 'I' && LowerChar(value[i]) == 'j' then 'J'
    else LowerChar(value[i])
  }

  lemma {:induction false} CapPrefixShape(value: string, i: nat)
    requires i <= |value|
    ensures var st := CapPrefix(value, i);
      && |st.output| == i
      && st.capitalizeNext == (i == 0 || IsSeparator(value[i - 1]))
      && st.prev == (if i == 0 then "" else [st.output[i - 1]])
      && (forall j :: 0 <= j < i ==> st.output[j] == CapChar(value, st.output, j))
    decreases i
  {
    if i > 0 {
      CapPrefixShape(value, i - 1);
      var prev := CapPrefix(value, i - 1);
      var st := CapPrefix(value, i);
      assert st.output[..i - 1] == prev.output;
      forall j | 0 <= j < i ensures st.output[j] == CapChar(value, st.output, j) {
        if j < i - 1 {
          assert st.output[j] == prev.output[j];
          assert j > 0 ==> st.output[j - 1] == prev.output[j - 1];
        } else {
          assert i - 1 > 0 ==> st.output[i - 2] == prev.output[i - 2];
          if !IsSeparator(value[i - 1]) && !prev.capitalizeNext && LowerChar(value[i - 1]) == 'j' {
            assert UpperChar(value[i - 1]) == 'J';
          }
        }
      }
    }
  }

  /**
   * capitalize, character by character: same length; separators copied; the first character and
   * every character after a separator upper-cased; a j or J after an output I becomes J; every
   * other character lower-cased.
   */
  lemma CapitalizedChars(value: string)
    ensures |Capitalized(value)| == |value|
    ensures forall i :: 0 <= i < |value| ==> Capitalized(value)[i] == CapChar(value, Capitalized(value), i)
  {
    CapPrefixShape(value, |value|);
  }

  /** Capitalising an already capitalised name changes nothing. */
  lemma CapitalizeIdempotent(value: string)
    ensures Capitalized(Capitalized(value)) == Capitalized(value)
  {
    var r := Capitalized(value);
    var rr := Capitalized(r);
    CapitalizedChars(value);
    CapitalizedChars(r);
    forall i | 0 <= i < |r| ensures rr[i] == r[i] {
      CapitalizeIdempotentAt(value, r, rr, i);
    }
  }

  lemma {:induction false} CapitalizeIdempotentAt(value: string, r: string, rr: string, i: nat)
    requires |r| == |value| && |rr| == |r| && i < |r|
    requires forall j :: 0 <= j < |value| ==> r[j] == CapChar(value, r, j)
    requires forall j :: 0 <= j < |r| ==> rr[j] == CapChar(r, rr, j)
    ensures rr[..i + 1] == r[..i + 1]
    decreases i
  {
    if i > 0 {
      CapitalizeIdempotentAt(value, r, rr, i - 1);
      assert rr[i - 1] == r[i - 1] by {
        assert rr[..i][i - 1] == r[..i][i - 1];
      }
    }
    assert IsSeparator(r[i]) <==> IsSeparator(value[i]);
    assert i > 0 ==> (IsSeparator(r[i - 1]) <==> IsSeparator(value[i - 1]));
    assert rr[i] == r[i];
    assert rr[..i + 1] == rr[..i] + [rr[i]] && r[..i + 1] == r[..i] + [r[i]];
  }

  /** The Dutch IJ rule: a j after an initial I is capitalised too. */
  lemma IJssel()
    ensures Capitalized("ijssel") == "IJssel"
  {
    CapitalizedChars("ijssel");
  }

  /** A j after anything but an I stays lower case. */
  lemma Dijk()
    ensures Capitalized("dijk") == "Dijk"
  {
    CapitalizedChars("dijk");
  }

  /** capitalize: the loop over the characters of value. */
  method Capitalize(value: string) returns (output: string)
    ensures output == Capitalized(value)
  {
    output := "";
    var capitalizeNext := true;
    var prev := "";
    for i := 0 to |value|
      invariant CapPrefix(value, i) == CapState(output, capitalizeNext, prev)
    {
      var c := value[i];
      if IsSeparator(c) {
        capitalizeNext := true;
      } else if capitalizeNext {
        capitalizeNext := false;
        c := UpperChar(c);
      } else {
        if prev == "I" && LowerChar(c) == 'j' {
          c := UpperChar(c);
        } else {
          c := LowerChar(c);
        }
      }
      output := output + [c];
      prev := [c];
    }
  }

  // ------------------------------------------------------------------ format_last_name

  /** The tussenvoegsels recognised in any case. */
  const Particles: seq<string> := ["van", "von", "de", "der", "den", "die"]

  predicate IsParticle(part: string) { Lower(part) in Particles }

  function LowerAll(parts: seq<string>): (r: seq<string>)
    ensures |r| == |parts| && forall j :: 0 <= j < |parts| ==> r[j] == Lower(parts[j])
  {
    if parts == [] then [] else [Lower(parts[0])] + LowerAll(parts[1..])
  }

  /** The number of leading tokens that pass the test: every token before it does, the token at it does not. */
  function Leading<T>(parts: seq<T>, particle: T -> bool): (k: nat)
    ensures k <= |parts|
    ensures forall j :: 0 <= j < k ==> particle(parts[j])
    ensures k < |parts| ==> !particle(parts[k])
  {
    if parts == [] || !particle(parts[0]) then 0 else 1 + Leading(parts[1..], particle)
  }

  /** The number of leading particles. */
  function LeadingParticles(parts: seq<string>): nat
  {
    Leading(parts, IsParticle)
  }

  /** The tokens of a last name: the stripped value split on single spaces. */
  function NameTokens(value: string): seq<string>
  {
    Split(StripSpace(value), ' ')
  }

  /**
   * format_last_name: the leading particles, lower-cased and joined with spaces, form the prefix;
   * all tokens from the first non-particle on, joined with spaces and capitalised, form the surname.
   */
  function LastNameParts(value: string): (r: (string, string))
  {
    var parts := NameTokens(value);
    var k := LeadingParticles(parts);
    (Join(" ", LowerAll(parts[..k])), Capitalized(Join(" ", parts[k..])))
  }

  /**
   * The loop of format_last_name run over the tokens in order, for any test of particles and any
   * lower-casing: a particle met before any surname token goes, lowered, to the prefix parts, every
   * other token to the surname parts.
   */
  function SortedTokens<T>(parts: seq<T>, particle: T -> bool, lower: T -> T): (seq<T>, seq<T>)
  {
    if parts == [] then ([], [])
    else
      var sorted := SortedTokens(parts[..|parts| - 1], particle, lower);
      var t := parts[|parts| - 1];
      if sorted.1 == [] && particle(t) then (sorted.0 + [lower(t)], sorted.1) else (sorted.0, sorted.1 + [t])
  }

  /** If the first k tokens are particles and the token at k (if any) is not, the prefix holds the k lowered particles and the surname the rest. */
  lemma {:induction false} SortedTokensSplit<T>(parts: seq<T>, particle: T -> bool, lower: T -> T, k: nat)
    requires k <= |parts|
    requires forall j :: 0 <= j < k ==> particle(parts[j])
    requires k < |parts| ==> !particle(parts[k])
    ensures var sorted := SortedTokens(parts, particle, lower);
      |sorted.0| == k && (forall j :: 0 <= j < k ==> sorted.0[j] == lower(parts[j])) && sorted.1 == parts[k..]
  {
    if parts != [] {
      var n := |parts|;
      var q := parts[..n - 1];
      var t := parts[n - 1];
      if k < n {
        if k < n - 1 {
          SortedTokensSplit(q, particle, lower, k);
          assert q[k..] + [t] == parts[k..];
        } else {
          SortedTokensSplit(q, particle, lower, k);
        }
      } else {
        SortedTokensSplit(q, particle, lower, n - 1);
      }
    }
  }

  /** The loop of format_last_name, appending each token to the prefix parts or to the surname parts. */
  method SortTokens(parts: seq<string>) returns (prefixParts: seq<string>, surnameParts: seq<string>)
    ensures prefixParts == LowerAll(parts[..LeadingParticles(parts)])
    ensures surnameParts == parts[LeadingParticles(parts)..]
  {
    prefixParts := [];
    surnameParts := [];
    for i := 0 to |parts|
      invariant (prefixParts, surnameParts) == SortedTokens(parts[..i], IsParticle, Lower)
    {
      assert parts[..i + 1][..i] == parts[..i];
      if surnameParts == [] && IsParticle(parts[i]) {
        prefixParts := prefixParts + [Lower(parts[i])];
      } else {
        surnameParts := surnameParts + [parts[i]];
      }
    }
    assert parts[..|parts|] == parts;
    var k := LeadingParticles(parts);
    SortedTokensSplit(parts, IsParticle, Lower, k);
    LowerAllPrefix(prefixParts, parts, k);
  }

  lemma LowerAllPrefix(lowered: seq<string>, parts: seq<string>, k: nat)
    requires |lowered| == k <= |parts|
    requires forall j :: 0 <= j < k ==> lowered[j] == Lower(parts[j])
    ensures lowered == LowerAll(parts[..k])
  {
  }

  method FormatLastName(value: string) returns (prefix: string, surname: string)
    ensures (prefix, surname) == LastNameParts(value)
  {
    var prefixParts, surnameParts := SortTokens(Split(StripSpace(value), ' '));
    prefix := Join(" ", prefixParts);
    surname := Capitalize(Join(" ", surnameParts));
  }

  /** Without particles the whole stripped value is the surname, capitalised, and the prefix is empty. */
  lemma NoParticleNoPrefix(value: string)
    requires StripSpace(value) != "" && !IsParticle(NameTokens(value)[0])
    ensures LastNameParts(value) == ("", Capitalized(StripSpace(value)))
  {
    var parts := NameTokens(value);
    assert LeadingParticles(parts) == 0;
    assert parts[0..] == parts;
    SplitJoin(StripSpace(value), ' ');
  }

  lemma ThreeTokens(a: string, b: string, c: string)
    requires ' ' !in a && ' ' !in b && ' ' !in c
    requires a != "" && !IsSpace(a[0]) && c != "" && !IsSpace(c[|c| - 1])
    ensures NameTokens(a + [' '] + b + [' '] + c) == [a, b, c]
  {
    StripClean(a + [' '] + b + [' '] + c, IsSpace);
    SplitThree(a, ' ', b, c);
  }

  lemma LeadingTwo(a: string, b: string, c: string)
    requires IsParticle(a) && IsParticle(b) && !IsParticle(c)
    ensures LeadingParticles([a, b, c]) == 2
  {
    assert LeadingParticles([c]) == 0;
    assert [b, c][1..] == [c];
    assert LeadingParticles([b, c]) == 1;
    assert [a, b, c][1..] == [b, c];
  }

  /** Two leading particles and a surname token: the particles go lower-cased to the prefix. */
  lemma TwoParticles(a: string, b: string, c: string)
    requires ' ' !in a && ' ' !in b && ' ' !in c
    requires a != "" && !IsSpace(a[0]) && c != "" && !IsSpace(c[|c| - 1])
    requires IsParticle(a) && IsParticle(b) && !IsParticle(c)
    ensures LastNameParts(a + [' '] + b + [' '] + c) == (Lower(a) + " " + Lower(b), Capitalized(c))
  {
    ThreeTokens(a, b, c);
    LeadingTwo(a, b, c);
    var parts := [a, b, c];
    assert parts[..2] == [a, b] && parts[2..] == [c];
    assert LowerAll([a, b]) == [Lower(a), Lower(b)];
  }

  // ------------------------------------------------------------------ rename_dept and the renames table

  const EnDash: char := '\U{2013}'

  /** An en dash becomes "-", every whitespace run one space, and the ends are stripped: the result is in normal form. */
  function NormaliseDept(department: string): (r: string)
    ensures IsNormalDept(r)
  {
    var dashed := Replace(department, [EnDash], "-");
    var collapsed := CollapseRuns(dashed, IsSpace, ' ');
    ReplaceCharGone(department, EnDash, "-");
    CollapseNoRuns(dashed, IsSpace, ' ', false);
    assert EnDash !in collapsed;
    StrippedNormal(collapsed);
    StripSpace(collapsed)
  }

  /** Stripping a text without en dash or whitespace runs, whose only whitespace is spaces, gives normal form. */
  lemma StrippedNormal(collapsed: string)
    requires EnDash !in collapsed
    requires forall i :: 0 <= i < |collapsed| && IsSpace(collapsed[i]) ==> collapsed[i] == ' '
    requires forall i :: 0 <= i < |collapsed| - 1 && IsSpace(collapsed[i]) ==> !IsSpace(collapsed[i + 1])
    ensures IsNormalDept(StripSpace(collapsed))
  {
    var off := StripSlice(collapsed, IsSpace);
    var r := StripSpace(collapsed);
    assert forall i :: 0 <= i < |r| ==> r[i] == collapsed[off + i];
  }

  /** Normalising twice is normalising once. */
  lemma NormaliseIdempotent(department: string)
    ensures NormaliseDept(NormaliseDept(department)) == NormaliseDept(department)
  {
    NormaliseNormal(NormaliseDept(department));
  }

  /**
   * rename_dept: the result is a renamed target from the table, or a name in normal form that the
   * table does not rename; a normal-form name the table does not know passes through unchanged.
   */
  function RenameDept(renames: map<string, string>, department: string): (r: string)
    ensures r in renames.Values || (IsNormalDept(r) && Lower(r) !in renames)
    ensures IsNormalDept(department) && Lower(department) !in renames ==> r == department
  {
    var d := NormaliseDept(department);
    assert IsNormalDept(department) ==> d == department by {
      if IsNormalDept(department) {
        NormaliseNormal(department);
      }
    }
    if Lower(d) in renames then renames[Lower(d)] else d
  }

  /** Renaming looks only at the normal form of the name. */
  lemma RenameNormalForm(renames: map<string, string>, department: string)
    ensures RenameDept(renames, NormaliseDept(department)) == RenameDept(renames, department)
  {
    NormaliseIdempotent(department);
  }

  /** A name already in normal form: no en dash, only single spaces between words, nothing to strip. */
  predicate IsNormalDept(name: string)
  {
    && EnDash !in name
    && (forall i :: 0 <= i < |name| && IsSpace(name[i]) ==> name[i] == ' ' && (i + 1 < |name| ==> !IsSpace(name[i + 1])))
    && (name == [] || (!IsSpace(name[0]) && !IsSpace(name[|name| - 1])))
  }

  lemma NormaliseNormal(name: string)
    requires IsNormalDept(name)
    ensures NormaliseDept(name) == name
  {
    ReplaceCharAbsent(name, EnDash, "-");
    CollapseSingle(name, IsSpace, ' ', false);
    StripClean(name, IsSpace);
  }

  /** What one row of renames.csv writes: the key of the old name, the key of the new name, and the new name. */
  datatype RenameEntry = RenameEntry(oldKey: string, newKey: string, target: string)

  /** A row (old, new): old lower-cased then stripped, and new stripped, also filed under its lower-cased form. */
  function EntryOf(row: (string, string)): RenameEntry
  {
    var target := StripSpace(row.1);
    RenameEntry(StripSpace(Lower(row.0)), Lower(target), target)
  }

  function Entries(rows: seq<(string, string)>): (r: seq<RenameEntry>)
    ensures |r| == |rows| && forall k :: 0 <= k < |rows| ==> r[k] == EntryOf(rows[k])
  {
    if rows == [] then [] else Entries(rows[..|rows| - 1]) + [EntryOf(rows[|rows| - 1])]
  }

  /** The renames table after the first i entries: each entry files its target under both keys. */
  function RenamesTable(entries: seq<RenameEntry>, i: nat): map<string, string>
    requires i <= |entries|
  {
    if i == 0 then map[]
    else
      Filed(RenamesTable(entries, i - 1), entries[i - 1])
  }

  /** The two assignments one row makes: the target under the old key, then under its own lower-cased key. */
  function Filed(m: map<string, string>, e: RenameEntry): map<string, string>
  {
    m[e.oldKey := e.target][e.newKey := e.target]
  }

  /** No entry after j and before i files another target under entry j's new key. */
  predicate KeptUntil(entries: seq<RenameEntry>, j: nat, i: nat)
    requires j < i <= |entries|
  {
    forall l :: j < l < i && (entries[l].oldKey == entries[j].newKey || entries[l].newKey == entries[j].newKey) ==>
      entries[l].target == entries[j].target
  }

  /** Every target is filed under its own key, unless a later entry files another target there. */
  lemma {:induction false} TargetMapsToItself(entries: seq<RenameEntry>, j: nat, i: nat)
    requires j < i <= |entries| && KeptUntil(entries, j, i)
    ensures entries[j].newKey in RenamesTable(entries, i)
    ensures RenamesTable(entries, i)[entries[j].newKey] == entries[j].target
    decreases i
  {
    if i - 1 > j {
      TargetMapsToItself(entries, j, i - 1);
      var e := entries[i - 1];
      UpdateTwiceKeeps(RenamesTable(entries, i - 1), e.oldKey, e.newKey, e.target, entries[j].newKey, entries[j].target);
    }
  }

  lemma UpdateTwiceKeeps<K, V>(m: map<K, V>, k1: K, k2: K, v: V, key: K, value: V)
    requires key in m && m[key] == value
    requires key == k1 || key == k2 ==> v == value
    ensures key in m[k1 := v][k2 := v] && m[k1 := v][k2 := v][key] == value
  {
  }

  /** The loop in handle that builds the renames table from the rows of renames.csv. */
  method BuildRenames(rows: seq<(string, string)>) returns (renames: map<string, string>)
    ensures renames == RenamesTable(Entries(rows), |rows|)
  {
    var entries := Entries(rows);
    renames := map[];
    for i := 0 to |entries|
      invariant renames == RenamesTable(entries, i)
    {
      var entry := entries[i];
      renames := renames[entry.oldKey := entry.target];
      renames := renames[entry.newKey := entry.target];
    }
  }

  /**
   * Renaming a target of the table gives it back, when the target is in normal form, is filed
   * under its lower-cased form (as EntryOf files every row), and no later entry files another
   * target under that key.
   */
  lemma RenamedTargetIsFixed(entries: seq<RenameEntry>, j: nat)
    requires j < |entries| && IsNormalDept(entries[j].target) && entries[j].newKey == Lower(entries[j].target)
    requires KeptUntil(entries, j, |entries|)
    ensures RenameDept(RenamesTable(entries, |entries|), entries[j].target) == entries[j].target
  {
    TargetMapsToItself(entries, j, |entries|);
    NormaliseNormal(entries[j].target);
  }

  // ------------------------------------------------------------------ lookup_dept

  type DeptId = int

  /** Department names that mean "no department". */
  const IgnoreDept: seq<string> :=
    ["HFS", "**GEEN**", "\U{00BB} Verras me", "Maak je keuze", "geen", "niet ingevuld", "n.v.t.", ""]

  /**
   * lookup_dept: an ignored name gives no department; a known name its department; an unknown
   * name an error when failOnKeyError is set and no department otherwise.
   */
  function LookupDept(deptLookup: map<string, DeptId>, name: string, failOnKeyError: bool): (r: Result<Option<DeptId>, string>)
    ensures r.Err? <==> failOnKeyError && name !in IgnoreDept && name !in deptLookup
    ensures r.Ok? && r.value.Some? <==> name !in IgnoreDept && name in deptLookup
    ensures r.Ok? && r.value.Some? ==> r.value.value == deptLookup[name]
  {
    if name in IgnoreDept then Ok(None)
    else if name in deptLookup then Ok(Some(deptLookup[name]))
    else if failOnKeyError then Err("Department " + name + " not found")
    else Ok(None)
  }

  /** Without failOnKeyError the lookup never fails, and a name it finds it finds in both modes. */
  lemma LookupModes(deptLookup: map<string, DeptId>, name: string)
    ensures LookupDept(deptLookup, name, false).Ok?
    ensures LookupDept(deptLookup, name, true).Ok? ==> LookupDept(deptLookup, name, true) == LookupDept(deptLookup, name, false)
  {
  }

  // ------------------------------------------------------------------ unique_username

  predicate IsUsernameSeparator(c: char) { IsSpace(c) || c == '-' || c == '_' || c == '.' }

  predicate IsUnderscore(c: char) { c == '_' }

  /** Runs of whitespace, "-", "_" and "." become one "_", and "_" is stripped from both ends. */
  function NormaliseUsername(candidate: string): string
  {
    Strip(CollapseRuns(candidate, IsUsernameSeparator, '_'), IsUnderscore)
  }

  function FullUsername(first: string, prefix: string, last: string): string
  {
    Join(" ", [Lower(first), Lower(prefix), Lower(last)])
  }

  /** The i-th candidate: the first name, the full name, then the full name with 2, 3, ... appended. */
  function Candidate(first: string, prefix: string, last: string, i: nat): string
  {
    if i == 0 then Lower(first)
    else if i == 1 then FullUsername(first, prefix, last)
    else FullUsername(first, prefix, last) + NatToString(i)
  }

  /** Digits survive normalisation, so a name that ends in digits keeps at least that many characters. */
  lemma DigitsSurvive(full: string, digits: string)
    requires digits != [] && forall i :: 0 <= i < |digits| ==> '0' <= digits[i] <= '9'
    ensures |NormaliseUsername(full + digits)| >= |digits|
  {
    assert forall i :: 0 <= i < |digits| ==> !IsUsernameSeparator(digits[i]);
    CollapseAppendPlain(full, digits, IsUsernameSeparator, '_', false);
    var c := CollapseRuns(full, IsUsernameSeparator, '_');
    assert CollapseRuns(full + digits, IsUsernameSeparator, '_') == c + digits;
    StripLeftAppend(c, digits, IsUnderscore);
    var x := StripLeft(c, IsUnderscore) + digits;
    assert NormaliseUsername(full + digits) == StripRight(x, IsUnderscore);
    StripRightKeeps(StripLeft(c, IsUnderscore), digits, IsUnderscore);
  }

  /** A numbered candidate ends with its number, so it is at least as long as the number. */
  lemma NumberedCandidateLength(first: string, prefix: string, last: string, i: nat)
    requires i >= 2
    ensures |NormaliseUsername(Candidate(first, prefix, last, i))| >= |NatToString(i)|
  {
    DigitsSurvive(FullUsername(first, prefix, last), NatToString(i));
  }

  function MaxLength(taken: seq<string>): (m: nat)
    ensures forall i :: 0 <= i < |taken| ==> |taken[i]| <= m
  {
    if taken == [] then 0
    else
      var m := MaxLength(taken[1..]);
      if |taken[0]| > m then |taken[0]| else m
  }

  /** A candidate number by which some candidate is surely free: its digits outnumber every taken name. */
  function Bound(taken: seq<string>): nat
  {
    Pow10(MaxLength(taken) + 1)
  }

  lemma BoundIsFree(first: string, prefix: string, last: string, taken: seq<string>)
    ensures Bound(taken) >= 2
    ensures NormaliseUsername(Candidate(first, prefix, last, Bound(taken))) !in taken
  {
    var b := Bound(taken);
    assert Pow10(1) == 10;
    PowMonotone(1, MaxLength(taken) + 1);
    NatToStringLength(b, MaxLength(taken) + 1);
    NumberedCandidateLength(first, prefix, last, b);
  }

  lemma {:induction false} PowMonotone(a: nat, b: nat)
    requires a <= b
    ensures Pow10(a) <= Pow10(b)
    decreases b
  {
    if a < b {
      PowMonotone(a, b - 1);
    }
  }

  /** The normalised i-th candidate, the name unique_username tries in its i-th round. */
  function TriedName(first: string, prefix: string, last: string, i: nat): string
  {
    NormaliseUsername(Candidate(first, prefix, last, i))
  }

  function Tried(first: string, prefix: string, last: string): nat -> string
  {
    (i: nat) => TriedName(first, prefix, last, i)
  }

  /** The first round from i on whose name is free, given a round bound whose name is free. */
  function FirstFreeFrom(tried: nat -> string, taken: seq<string>, bound: nat, i: nat): (k: nat)
    requires i <= bound && tried(bound) !in taken
    ensures i <= k <= bound && tried(k) !in taken
    ensures forall j :: i <= j < k ==> tried(j) in taken
    decreases bound - i
  {
    if i == bound || tried(i) !in taken then i else FirstFreeFrom(tried, taken, bound, i + 1)
  }

  /** The round in which unique_username returns: every earlier round's name is taken. */
  function FirstFree(first: string, prefix: string, last: string, taken: seq<string>): (k: nat)
    ensures TriedName(first, prefix, last, k) !in taken
    ensures forall j :: 0 <= j < k ==> TriedName(first, prefix, last, j) in taken
  {
    BoundIsFree(first, prefix, last, taken);
    var tried := Tried(first, prefix, last);
    var k := FirstFreeFrom(tried, taken, Bound(taken), 0);
    assert forall j :: 0 <= j <= k ==> tried(j) == TriedName(first, prefix, last, j);
    k
  }

  /**
   * unique_username: pops the first name and the full name off the candidate list, then tries the
   * full name with 2, 3, ...; returns the first normalised candidate that is not taken.
   */
  method UniqueUsername(first: string, prefix: string, last: string, taken: seq<string>) returns (username: string)
    ensures username !in taken
    ensures username == TriedName(first, prefix, last, FirstFree(first, prefix, last, taken))
  {
    var full := FullUsername(first, prefix, last);
    var candidates := [Lower(first), full];
    var duplicate := 2;
    ghost var i := 0;
    ghost var k := FirstFree(first, prefix, last, taken);
    while true
      invariant i <= k
      invariant i == 0 ==> candidates == [Lower(first), full]
      invariant i == 1 ==> candidates == [full]
      invariant i >= 2 ==> candidates == []
      invariant duplicate == if i < 2 then 2 else i
      decreases k - i
    {
      var candidate;
      if candidates != [] {
        candidate := candidates[0];
        candidates := candidates[1..];
      } else {
        candidate := full + NatToString(duplicate);
        duplicate := duplicate + 1;
      }
      assert candidate == Candidate(first, prefix, last, i);
      candidate := NormaliseUsername(candidate);
      assert candidate == TriedName(first, prefix, last, i);
      if candidate !in taken {
        assert !(i < k);
        return candidate;
      }
      assert i != k;
      i := i + 1;
    }
  }

  // ------------------------------------------------------------------ the choice columns of read_history_year

  /** The three choice columns of an enrollment row, in priority order. */
  const EnrollmentChoices: seq<string> := ["eerste_keuze", "tweede_keuze", "derde_keuze"]

  predicate AllDashes(s: string) { s != [] && forall i :: 0 <= i < |s| ==> s[i] == '-' }

  /** re.match(r"^\-+$", value): one or more dashes, then the end, or one final newline, which `$` also accepts. */
  predicate DashOnly(value: string)
  {
    AllDashes(value) || (|value| >= 2 && value[|value| - 1] == '\n' && AllDashes(value[..|value| - 1]))
  }

  /** An exchange session as the import creates and finds it: per department and exchange. */
  datatype ImportedSession = ImportedSession(
    department: DeptId,
    exchange: ExchangeId,
    participantsMin: int,
    participantsMax: int,
    sessionCount: int)

  /** Why a row stops: the CommandError of an unknown department, or a get that found two registrations. */
  datatype ImportError = CommandError(message: string) | MultipleObjectsReturned

  /** A registration as the import writes it: requestor, optional session, priority and time. */
  datatype StoredRegistration = StoredRegistration(
    requestor: PersonId,
    session: Option<SessionPk>,
    priority: int,
    dateTime: int)

  /** The stored sessions (a session's primary key is its index) and registrations. */
  datatype ImportState = ImportState(sessions: seq<ImportedSession>, registrations: seq<StoredRegistration>)

  /** What one row fixes for its choice columns: the person, the exchange of the year, the enrollment time and the tables. */
  datatype RowContext = RowContext(
    person: PersonId,
    exchange: ExchangeId,
    dateTime: int,
    deptLookup: map<string, DeptId>,
    renames: map<string, string>)

  predicate SessionFor(s: ImportedSession, exchange: ExchangeId, department: DeptId)
  {
    s.exchange == exchange && s.department == department
  }

  /** filter(department=..., exchange=...).first(): the lowest primary key that matches. */
  function FirstSession(sessions: seq<ImportedSession>, exchange: ExchangeId, department: DeptId): (r: Option<nat>)
    ensures r.Some? ==> r.value < |sessions| && SessionFor(sessions[r.value], exchange, department)
    ensures r.Some? ==> forall k :: 0 <= k < r.value ==> !SessionFor(sessions[k], exchange, department)
    ensures r.None? ==> forall k :: 0 <= k < |sessions| ==> !SessionFor(sessions[k], exchange, department)
  {
    if sessions == [] then None
    else if SessionFor(sessions[0], exchange, department) then Some(0)
    else match FirstSession(sessions[1..], exchange, department)
      case None => None
      case Some(k) => Some(k + 1)
  }

  /** The session a new department gets: no minimum, 999 places, 999 repeats. */
  function DefaultSession(exchange: ExchangeId, department: DeptId): ImportedSession
  {
    ImportedSession(department, exchange, 0, 999, 999)
  }

  /**
   * dept_session: the first session of the department in the exchange, or a new one with the
   * defaults appended. Returns the sessions afterwards and the primary key.
   */
  function DeptSessionOf(sessions: seq<ImportedSession>, exchange: ExchangeId, department: DeptId): (r: (seq<ImportedSession>, nat))
    ensures r.1 < |r.0| && SessionFor(r.0[r.1], exchange, department)
    ensures forall k :: 0 <= k < r.1 ==> !SessionFor(r.0[k], exchange, department)
    ensures r.0 == sessions || r.0 == sessions + [DefaultSession(exchange, department)]
    ensures r.0 != sessions <==> forall k :: 0 <= k < |sessions| ==> !SessionFor(sessions[k], exchange, department)
  {
    match FirstSession(sessions, exchange, department)
    case Some(k) => (sessions, k)
    case None => (sessions + [DefaultSession(exchange, department)], |sessions|)
  }

  /** Asking again for the same department and exchange finds the session made the first time. */
  lemma DeptSessionIdempotent(sessions: seq<ImportedSession>, exchange: ExchangeId, department: DeptId)
    ensures var (after, pk) := DeptSessionOf(sessions, exchange, department);
      DeptSessionOf(after, exchange, department) == (after, pk)
  {
    var (after, pk) := DeptSessionOf(sessions, exchange, department);
    var again := FirstSession(after, exchange, department);
    assert again.Some?;
  }

  /** The number of stored registrations of the person for the (possibly absent) session. */
  function MatchCount(regs: seq<StoredRegistration>, person: PersonId, choice: Option<SessionPk>): nat
  {
    if regs == [] then 0
    else
      var last := regs[|regs| - 1];
      MatchCount(regs[..|regs| - 1], person, choice) + (if last.requestor == person && last.session == choice then 1 else 0)
  }

  /** At most one registration per (person, session) pair. */
  predicate UniquePairs(regs: seq<StoredRegistration>)
  {
    forall i, j :: 0 <= i < j < |regs| ==>
      regs[i].requestor != regs[j].requestor || regs[i].session != regs[j].session
  }

  /** A count of zero means no registration of the pair, a count above zero that one exists. */
  lemma {:induction false} MatchCountZero(regs: seq<StoredRegistration>, person: PersonId, choice: Option<SessionPk>)
    ensures MatchCount(regs, person, choice) == 0 <==>
      forall k :: 0 <= k < |regs| ==> regs[k].requestor != person || regs[k].session != choice
  {
    if regs != [] {
      MatchCountZero(regs[..|regs| - 1], person, choice);
    }
  }

  /** With unique pairs Registration.objects.get never finds two. */
  lemma {:induction false} UniqueCountAtMostOne(regs: seq<StoredRegistration>, person: PersonId, choice: Option<SessionPk>)
    requires UniquePairs(regs)
    ensures MatchCount(regs, person, choice) <= 1
  {
    if regs != [] {
      var init := regs[..|regs| - 1];
      assert UniquePairs(init);
      UniqueCountAtMostOne(init, person, choice);
      var last := regs[|regs| - 1];
      if last.requestor == person && last.session == choice {
        MatchCountZero(init, person, choice);
      }
    }
  }

  /**
   * One choice column: a dash-only value is skipped; otherwise the renamed value is looked up
   * (an unknown department is an error), its session found or created, and a registration with
   * this priority created unless the pair already has one. Two existing registrations make the
   * get fail. Returns the state and the error that stopped the row, if any.
   */
  function ChoiceStep(st: ImportState, ctx: RowContext, priority: nat, value: string): (r: (ImportState, Option<ImportError>))
  {
    if DashOnly(value) then (st, None)
    else match LookupDept(ctx.deptLookup, RenameDept(ctx.renames, value), true)
      case Err(e) => (st, Some(CommandError(e)))
      case Ok(None) => Register(st, st.sessions, ctx, None, priority)
      case Ok(Some(dept)) =>
        var (sessions, pk) := DeptSessionOf(st.sessions, ctx.exchange, dept);
        Register(st, sessions, ctx, Some(pk), priority)
  }

  /** The get-or-create of the registration for the person and the chosen session, over the given sessions. */
  function Register(st: ImportState, sessions: seq<ImportedSession>, ctx: RowContext, choice: Option<SessionPk>, priority: nat): (ImportState, Option<ImportError>)
  {
    var n := MatchCount(st.registrations, ctx.person, choice);
    if n == 0 then
      (ImportState(sessions, st.registrations + [StoredRegistration(ctx.person, choice, priority, ctx.dateTime)]), None)
    else if n == 1 then (ImportState(sessions, st.registrations), None)
    else (ImportState(sessions, st.registrations), Some(MultipleObjectsReturned))
  }

  /** The state after the choice columns from i on (column i has priority i + 1); the first error stops the row. */
  function ChoicesFrom(st: ImportState, ctx: RowContext, values: seq<string>, i: nat): (ImportState, Option<ImportError>)
    requires i <= |values|
    decreases |values| - i
  {
    if i == |values| then (st, None)
    else
      var step := ChoiceStep(st, ctx, i + 1, values[i]);
      if step.1.Some? then step else ChoicesFrom(step.0, ctx, values, i + 1)
  }

  /** A registration the row's choice columns may add: the person's, at the time of the row, at the priority of a non-dash column. */
  predicate AddedByRow(reg: StoredRegistration, ctx: RowContext, values: seq<string>)
  {
    reg.requestor == ctx.person && reg.dateTime == ctx.dateTime
    && 1 <= reg.priority <= |values| && !DashOnly(values[reg.priority - 1])
  }

  /** Sessions and registrations only grow, and every registration added is one the row may add. */
  predicate Extends(before: ImportState, after: ImportState, ctx: RowContext, values: seq<string>)
  {
    && |before.sessions| <= |after.sessions| && after.sessions[..|before.sessions|] == before.sessions
    && |before.registrations| <= |after.registrations| && after.registrations[..|before.registrations|] == before.registrations
    && forall k :: |before.registrations| <= k < |after.registrations| ==> AddedByRow(after.registrations[k], ctx, values)
  }

  lemma ExtendsRefl(st: ImportState, ctx: RowContext, values: seq<string>)
    ensures Extends(st, st, ctx, values)
  {
    assert st.sessions[..|st.sessions|] == st.sessions;
    assert st.registrations[..|st.registrations|] == st.registrations;
  }

  /** The get-or-create keeps pairs unique, never meets two registrations of a pair, and extends the state. */
  lemma RegisterFacts(st: ImportState, sessions: seq<ImportedSession>, ctx: RowContext, choice: Option<SessionPk>, values: seq<string>, i: nat)
    requires 1 <= i <= |values| && !DashOnly(values[i - 1]) && UniquePairs(st.registrations)
    requires |st.sessions| <= |sessions| && sessions[..|st.sessions|] == st.sessions
    ensures var (after, err) := Register(st, sessions, ctx, choice, i);
      && UniquePairs(after.registrations)
      && err.None?
      && Extends(st, after, ctx, values)
  {
    UniqueCountAtMostOne(st.registrations, ctx.person, choice);
    MatchCountZero(st.registrations, ctx.person, choice);
    assert st.registrations[..|st.registrations|] == st.registrations;
    var regs := st.registrations + [StoredRegistration(ctx.person, choice, i, ctx.dateTime)];
    assert regs[..|st.registrations|] == st.registrations;
  }

  /** One column keeps the pairs unique, never meets two registrations of a pair, and extends the state. */
  lemma ChoiceStepFacts(st: ImportState, ctx: RowContext, values: seq<string>, i: nat)
    requires 1 <= i <= |values| && UniquePairs(st.registrations)
    ensures var (after, err) := ChoiceStep(st, ctx, i, values[i - 1]);
      && UniquePairs(after.registrations)
      && err != Some(MultipleObjectsReturned)
      && Extends(st, after, ctx, values)
  {
    var value := values[i - 1];
    var lookup := LookupDept(ctx.deptLookup, RenameDept(ctx.renames, value), true);
    if DashOnly(value) || lookup.Err? {
      ExtendsRefl(st, ctx, values);
    } else if lookup.value.None? {
      assert st.sessions[..|st.sessions|] == st.sessions;
      RegisterFacts(st, st.sessions, ctx, None, values, i);
    } else {
      var (sessions, pk) := DeptSessionOf(st.sessions, ctx.exchange, lookup.value.value);
      assert sessions[..|st.sessions|] == st.sessions;
      RegisterFacts(st, sessions, ctx, Some(pk), values, i);
    }
  }

  lemma ExtendsTrans(a: ImportState, b: ImportState, c: ImportState, ctx: RowContext, values: seq<string>)
    requires Extends(a, b, ctx, values) && Extends(b, c, ctx, values)
    ensures Extends(a, c, ctx, values)
  {
    assert c.sessions[..|a.sessions|] == c.sessions[..|b.sessions|][..|a.sessions|];
    assert c.registrations[..|a.registrations|] == c.registrations[..|b.registrations|][..|a.registrations|];
    forall k | |a.registrations| <= k < |c.registrations|
      ensures AddedByRow(c.registrations[k], ctx, values)
    {
      if k < |b.registrations| {
        assert c.registrations[k] == c.registrations[..|b.registrations|][k];
      }
    }
  }

  /**
   * A row's choice columns leave at most one registration per (person, session) pair and never
   * meet two registrations of a pair, so the row fails only on an unknown department.
   */
  lemma {:induction false} ChoicesKeepPairsUnique(st: ImportState, ctx: RowContext, values: seq<string>, i: nat)
    requires i <= |values| && UniquePairs(st.registrations)
    ensures UniquePairs(ChoicesFrom(st, ctx, values, i).0.registrations)
    ensures ChoicesFrom(st, ctx, values, i).1 != Some(MultipleObjectsReturned)
    decreases |values| - i
  {
    if i < |values| {
      var step := ChoiceStep(st, ctx, i + 1, values[i]);
      ChoiceStepFacts(st, ctx, values, i + 1);
      if step.1.None? {
        ChoicesKeepPairsUnique(step.0, ctx, values, i + 1);
      }
    }
  }

  /**
   * A row's choice columns keep what was stored and add only the person's registrations, at the
   * priorities of non-dash columns.
   */
  lemma {:induction false} ChoicesExtend(st: ImportState, ctx: RowContext, values: seq<string>, i: nat)
    requires i <= |values| && UniquePairs(st.registrations)
    ensures Extends(st, ChoicesFrom(st, ctx, values, i).0, ctx, values)
    decreases |values| - i
  {
    if i == |values| {
      ExtendsRefl(st, ctx, values);
    } else {
      var step := ChoiceStep(st, ctx, i + 1, values[i]);
      ChoiceStepFacts(st, ctx, values, i + 1);
      if step.1.None? {
        var rest := ChoicesFrom(step.0, ctx, values, i + 1);
        ChoicesExtend(step.0, ctx, values, i + 1);
        ExtendsTrans(st, step.0, rest.0, ctx, values);
      }
    }
  }

  /** A row whose choice columns are all dashes changes nothing. */
  lemma {:induction false} DashRowChangesNothing(st: ImportState, ctx: RowContext, values: seq<string>, i: nat)
    requires i <= |values| && forall k :: 0 <= k < |values| ==> DashOnly(values[k])
    ensures ChoicesFrom(st, ctx, values, i) == (st, None)
    decreases |values| - i
  {
    if i < |values| {
      DashRowChangesNothing(st, ctx, values, i + 1);
    }
  }

  /** The k-th registration is the person's, for a session of the department in the exchange. */
  predicate RegisteredFor(st: ImportState, k: nat, person: PersonId, exchange: ExchangeId, department: DeptId)
    requires k < |st.registrations|
  {
    var reg := st.registrations[k];
    reg.requestor == person && reg.session.Some? && 0 <= reg.session.value < |st.sessions|
    && SessionFor(st.sessions[reg.session.value], exchange, department)
  }

  /** A column that names a known department registers the person for that department's session in this exchange. */
  lemma KnownChoiceRegisters(st: ImportState, ctx: RowContext, priority: nat, value: string)
    requires !DashOnly(value) && UniquePairs(st.registrations)
    requires var name := RenameDept(ctx.renames, value); name !in IgnoreDept && name in ctx.deptLookup
    ensures var (after, err) := ChoiceStep(st, ctx, priority, value);
      var dept := ctx.deptLookup[RenameDept(ctx.renames, value)];
      && err.None?
      && (exists k :: 0 <= k < |after.registrations| && RegisteredFor(after, k, ctx.person, ctx.exchange, dept))
  {
    var dept := ctx.deptLookup[RenameDept(ctx.renames, value)];
    var (sessions, pk) := DeptSessionOf(st.sessions, ctx.exchange, dept);
    var (after, err) := ChoiceStep(st, ctx, priority, value);
    assert after.sessions == sessions;
    UniqueCountAtMostOne(st.registrations, ctx.person, Some(pk));
    MatchCountZero(st.registrations, ctx.person, Some(pk));
    if MatchCount(st.registrations, ctx.person, Some(pk)) == 0 {
      var k := |st.registrations|;
      assert RegisteredFor(after, k, ctx.person, ctx.exchange, dept);
    } else {
      var k :| 0 <= k < |st.registrations| && st.registrations[k].requestor == ctx.person && st.registrations[k].session == Some(pk);
      assert RegisteredFor(after, k, ctx.person, ctx.exchange, dept);
    }
  }

  /** The sessions and registrations the import writes to, updated in place. */
  class ImportStore {
    var sessions: seq<ImportedSession>
    var registrations: seq<StoredRegistration>

    function State(): ImportState
      reads this
    {
      ImportState(sessions, registrations)
    }

    constructor(st: ImportState)
      ensures State() == st
    {
      sessions := st.sessions;
      registrations := st.registrations;
    }

    /** dept_session: finds the session of the department in the exchange, or saves a new one. */
    method DeptSession(exchange: ExchangeId, department: DeptId) returns (pk: nat)
      modifies this
      ensures (sessions, pk) == DeptSessionOf(old(sessions), exchange, department)
      ensures registrations == old(registrations)
    {
      var found := FirstSession(sessions, exchange, department);
      if found.Some? {
        pk := found.value;
      } else {
        sessions := sessions + [DefaultSession(exchange, department)];
        pk := |sessions| - 1;
      }
    }

    /**
     * The loop over the choice columns of one row, with priorities 1, 2, 3; returns the error
     * that stopped the row, if any.
     */
    method ImportChoices(ctx: RowContext, values: seq<string>) returns (error: Option<ImportError>)
      requires |values| == |EnrollmentChoices|
      modifies this
      ensures (State(), error) == ChoicesFrom(old(State()), ctx, values, 0)
    {
      ghost var outcome := ChoicesFrom(State(), ctx, values, 0);
      for i := 0 to |values|
        invariant ChoicesFrom(State(), ctx, values, i) == outcome
      {
        ghost var before := State();
        var value := values[i];
        if DashOnly(value) {
          continue;
        }
        var lookup := LookupDept(ctx.deptLookup, RenameDept(ctx.renames, value), true);
        if lookup.Err? {
          return Some(CommandError(lookup.error));
        }
        var choice: Option<SessionPk> := None;
        if lookup.value.Some? {
          var pk := DeptSession(ctx.exchange, lookup.value.value);
          choice := Some(pk);
        }
        assert ChoiceStep(before, ctx, i + 1, value) == Register(before, sessions, ctx, choice, i + 1);
        var n := MatchCount(registrations, ctx.person, choice);
        if n == 0 {
          registrations := registrations + [StoredRegistration(ctx.person, choice, i + 1, ctx.dateTime)];
        } else if n > 1 {
          return Some(MultipleObjectsReturned);
        }
      }
      error := None;
    }
  }
}
