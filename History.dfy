/**
 * The statistics export of the history command. Every statistic walks the sessions and, for
 * each, the people assigned to it; that walk is given here as one sequence of assignments in
 * walk order. A year is identified by the begin year of its exchange. Each dict the command
 * fills is tied to a function of the part of the walk read so far, and lemmas say what that
 * function means.
 */
module History {
  import opened Domain
  import opened Tally
  import opened Wrappers
  import Text

  type Years = int

  /** One person on the assigned list of one session, with the strings the export writes for them. */
  datatype Assignment = Assignment(person: PersonId, years: Years, sessionName: string, affiliation: string)

  function Persons(walk: seq<Assignment>): (r: seq<PersonId>)
    ensures |r| == |walk|
  {
    if walk == [] then [] else Persons(walk[..|walk| - 1]) + [walk[|walk| - 1].person]
  }

  lemma {:induction false} PersonAt(walk: seq<Assignment>, k: nat)
    requires k < |walk|
    ensures Persons(walk)[k] == walk[k].person
    decreases |walk|
  {
    if k < |walk| - 1 {
      PersonAt(walk[..|walk| - 1], k);
    }
  }

  function YearsOf(walk: seq<Assignment>): (r: seq<Years>)
    ensures |r| == |walk|
  {
    if walk == [] then [] else YearsOf(walk[..|walk| - 1]) + [walk[|walk| - 1].years]
  }

  // ------------------------------------------------------------------ get_enrollments

  const YearsColumnName := "jaren"

  datatype EnrollmentRow = EnrollmentRow(id: PersonId, count: nat, howMany: nat, years: Years, dept: string, assignedChoice: string)

  /** The row written for one assignment: the person, a count of 1, how_many, the years, the affiliation and the session. */
  function RowOf(a: Assignment, howMany: nat): EnrollmentRow
  {
    EnrollmentRow(a.person, 1, howMany, a.years, a.affiliation, a.sessionName)
  }

  /** The how_many of each entry: one more than the count the dict held for that person before it. */
  function HowManys(ps: seq<PersonId>): (r: seq<nat>)
    ensures |r| == |ps|
  {
    if ps == [] then []
    else
      var init := ps[..|ps| - 1];
      HowManys(init) + [Seen(CountMap(init), ps[|ps| - 1]) + 1]
  }

  /** how_many of entry k is the number of appearances of its person up to and including k. */
  lemma {:induction false} HowManysCount(ps: seq<PersonId>, k: nat)
    requires k < |ps|
    ensures HowManys(ps)[k] == Count(ps[..k], ps[k]) + 1
    decreases |ps|
  {
    var init := ps[..|ps| - 1];
    if k < |ps| - 1 {
      HowManysCount(init, k);
      assert init[..k] == ps[..k];
    } else {
      CountMapCounts(init);
    }
  }

  /** get_enrollments: one row per assignment, numbering each person's appearances. */
  method GetEnrollments(walk: seq<Assignment>) returns (keys: seq<string>, rows: seq<EnrollmentRow>)
    ensures keys == ["id", "count", "hoeveelste_keer", YearsColumnName, "afdeling", "toegewezen"]
    ensures |rows| == |walk|
    ensures forall i :: 0 <= i < |walk| ==> rows[i] == RowOf(walk[i], HowManys(Persons(walk))[i])
  {
    ghost var ps := Persons(walk);
    ghost var howManys: seq<nat> := [];
    var participantCount: map<PersonId, nat> := map[];
    keys := ["id", "count", "hoeveelste_keer", YearsColumnName, "afdeling", "toegewezen"];
    rows := [];
    for i := 0 to |walk|
      invariant participantCount == CountMap(ps[..i])
      invariant howManys == HowManys(ps[..i])
      invariant |rows| == i
      invariant forall k :: 0 <= k < i ==> rows[k] == RowOf(walk[k], howManys[k])
    {
      var id := walk[i].person;
      PersonAt(walk, i);
      assert ps[..i + 1][..i] == ps[..i];
      var howMany;
      if id in participantCount {
        howMany := participantCount[id] + 1;
      } else {
        Overwrite(participantCount, id, 0, 1);
        participantCount := participantCount[id := 0];
        howMany := 1;
      }
      participantCount := participantCount[id := participantCount[id] + 1];
      rows := rows + [RowOf(walk[i], howMany)];
      howManys := howManys + [howMany];
    }
    assert ps[..|walk|] == ps;
  }

  /** how_many is 1 exactly at a person's first appearance. */
  lemma HowManyFirst(ps: seq<PersonId>, i: nat)
    requires i < |ps|
    ensures Count(ps[..i], ps[i]) + 1 == 1 <==> ps[i] !in ps[..i]
  {
    if ps[i] in ps[..i] {
      var k :| 0 <= k < i && ps[..i][k] == ps[i];
      assert ps[..i] == ps[..k] + [ps[i]] + ps[k + 1..i];
      CountAppend(ps[..k] + [ps[i]], ps[k + 1..i], ps[i]);
      CountSnoc(ps[..k], ps[i], ps[i]);
    }
  }

  /** Between two consecutive appearances of a person, how_many rises by exactly one. */
  lemma HowManyNext(ps: seq<PersonId>, i: nat, j: nat)
    requires i < j < |ps| && ps[i] == ps[j]
    requires forall k :: i < k < j ==> ps[k] != ps[i]
    ensures Count(ps[..j], ps[j]) + 1 == Count(ps[..i], ps[i]) + 2
  {
    var p := ps[i];
    assert ps[..j] == ps[..i] + [p] + ps[i + 1..j];
    CountAppend(ps[..i] + [p], ps[i + 1..j], p);
    CountSnoc(ps[..i], p, p);
    assert p !in ps[i + 1..j];
  }

  /** At a person's last appearance how_many is the number of times they were assigned. */
  lemma HowManyLast(ps: seq<PersonId>, i: nat)
    requires i < |ps|
    requires forall k :: i < k < |ps| ==> ps[k] != ps[i]
    ensures Count(ps[..i], ps[i]) + 1 == Count(ps, ps[i])
  {
    var p := ps[i];
    assert ps == ps[..i] + [p] + ps[i + 1..];
    CountAppend(ps[..i] + [p], ps[i + 1..], p);
    CountSnoc(ps[..i], p, p);
    assert p !in ps[i + 1..];
  }

  // ------------------------------------------------------------------ per_year_enrollment

  /** The session name and the affiliation of one assignment. */
  datatype Enrollment = Enrollment(assignedDept: string, fromDept: string)

  function EnrollmentOf(a: Assignment): Enrollment
  {
    Enrollment(a.sessionName, a.affiliation)
  }

  function Enrollments(walk: seq<Assignment>): (r: seq<Enrollment>)
    ensures |r| == |walk|
  {
    if walk == [] then [] else Enrollments(walk[..|walk| - 1]) + [EnrollmentOf(walk[|walk| - 1])]
  }

  /** The assignments of one year, in walk order. */
  function InYear(walk: seq<Assignment>, y: Years): (r: seq<Assignment>)
    ensures |r| <= |walk|
  {
    if walk == [] then []
    else
      var init, a := walk[..|walk| - 1], walk[|walk| - 1];
      if a.years == y then InYear(init, y) + [a] else InYear(init, y)
  }

  /** The per_year dict after reading the walk: each assignment's person appended under its year. */
  function PerYear(walk: seq<Assignment>): map<Years, seq<PersonId>>
  {
    if walk == [] then map[]
    else
      var m := PerYear(walk[..|walk| - 1]);
      var a := walk[|walk| - 1];
      if a.years in m then m[a.years := m[a.years] + [a.person]] else m[a.years := [a.person]]
  }

  /** The per_year_enrollment dict after reading the walk, filled the same way with enrollments. */
  function PerYearEnrollments(walk: seq<Assignment>): map<Years, seq<Enrollment>>
  {
    if walk == [] then map[]
    else
      var m := PerYearEnrollments(walk[..|walk| - 1]);
      var a := walk[|walk| - 1];
      if a.years in m then m[a.years := m[a.years] + [EnrollmentOf(a)]] else m[a.years := [EnrollmentOf(a)]]
  }

  /**
   * Both dicts hold exactly the years of the walk, and under each year the participants and the
   * enrollments of that year's assignments, in walk order: the two lists grow in lockstep.
   */
  lemma {:induction false} PerYearMeans(walk: seq<Assignment>)
    ensures forall y :: y in PerYear(walk) <==> y in YearsOf(walk)
    ensures forall y :: y in PerYearEnrollments(walk) <==> y in YearsOf(walk)
    ensures forall y :: y in PerYear(walk) ==> PerYear(walk)[y] == Persons(InYear(walk, y))
    ensures forall y :: y in PerYearEnrollments(walk) ==> PerYearEnrollments(walk)[y] == Enrollments(InYear(walk, y))
    decreases |walk|
  {
    if walk != [] {
      var init, a := walk[..|walk| - 1], walk[|walk| - 1];
      PerYearMeans(init);
      assert YearsOf(walk) == YearsOf(init) + [a.years];
      if a.years !in PerYear(init) {
        InYearEmpty(init, a.years);
      }
    }
  }

  /** A year is a key of both dicts exactly when it occurs in the walk. */
  lemma {:induction false} PerYearKeys(walk: seq<Assignment>, y: Years)
    ensures y in PerYear(walk) <==> y in YearsOf(walk)
    ensures y in PerYearEnrollments(walk) <==> y in YearsOf(walk)
    decreases |walk|
  {
    if walk != [] {
      var init := walk[..|walk| - 1];
      PerYearKeys(init, y);
      assert YearsOf(walk) == YearsOf(init) + [walk[|walk| - 1].years];
    }
  }

  lemma {:induction false} InYearEmpty(walk: seq<Assignment>, y: Years)
    requires y !in YearsOf(walk)
    ensures InYear(walk, y) == []
    decreases |walk|
  {
    if walk != [] {
      var init := walk[..|walk| - 1];
      assert YearsOf(walk) == YearsOf(init) + [walk[|walk| - 1].years];
      InYearEmpty(init, y);
    }
  }

  /** Reading one more assignment: the three structures of per_year_enrollment after it, from those before it. */
  lemma PerYearStep(walk: seq<Assignment>, i: nat)
    requires i < |walk|
    ensures PerYear(walk[..i + 1]) ==
      if walk[i].years in PerYear(walk[..i]) then PerYear(walk[..i])[walk[i].years := PerYear(walk[..i])[walk[i].years] + [walk[i].person]]
      else PerYear(walk[..i])[walk[i].years := [walk[i].person]]
    ensures PerYearEnrollments(walk[..i + 1]) ==
      if walk[i].years in PerYearEnrollments(walk[..i]) then PerYearEnrollments(walk[..i])[walk[i].years := PerYearEnrollments(walk[..i])[walk[i].years] + [EnrollmentOf(walk[i])]]
      else PerYearEnrollments(walk[..i])[walk[i].years := [EnrollmentOf(walk[i])]]
    ensures walk[i].years in PerYear(walk[..i]) <==> walk[i].years in PerYearEnrollments(walk[..i])
    ensures Firsts(YearsOf(walk[..i + 1])) ==
      if walk[i].years in PerYear(walk[..i]) then Firsts(YearsOf(walk[..i])) else Firsts(YearsOf(walk[..i])) + [walk[i].years]
  {
    var w, a := walk[..i], walk[i];
    assert walk[..i + 1][..i] == w;
    PerYearKeys(w, a.years);
    assert YearsOf(walk[..i + 1]) == YearsOf(w) + [a.years];
    CountMapSnoc(YearsOf(w), a.years);
  }

  /**
   * per_year_enrollment: the participants and the enrollments of each year, built side by side;
   * order is the order in which the years were first met (the key order of both dicts).
   */
  method PerYearEnrollment(walk: seq<Assignment>)
    returns (perYear: map<Years, seq<PersonId>>, perYearEnrollment: map<Years, seq<Enrollment>>, order: seq<Years>)
    ensures perYear == PerYear(walk) && perYearEnrollment == PerYearEnrollments(walk)
    ensures order == Firsts(YearsOf(walk))
  {
    perYear, perYearEnrollment, order := map[], map[], [];
    for i := 0 to |walk|
      invariant perYear == PerYear(walk[..i]) && perYearEnrollment == PerYearEnrollments(walk[..i])
      invariant order == Firsts(YearsOf(walk[..i]))
    {
      var a := walk[i];
      PerYearStep(walk, i);
      if a.years in perYear {
        perYear := perYear[a.years := perYear[a.years] + [a.person]];
        perYearEnrollment := perYearEnrollment[a.years := perYearEnrollment[a.years] + [EnrollmentOf(a)]];
      } else {
        perYear := perYear[a.years := [a.person]];
        perYearEnrollment := perYearEnrollment[a.years := [EnrollmentOf(a)]];
        order := order + [a.years];
      }
    }
    assert walk[..|walk|] == walk;
  }

  /** The number of assignments of a year is the number of times that year occurs in the walk. */
  lemma {:induction false} InYearCount(walk: seq<Assignment>, y: Years)
    ensures |InYear(walk, y)| == Count(YearsOf(walk), y)
    decreases |walk|
  {
    if walk != [] {
      var init := walk[..|walk| - 1];
      InYearCount(init, y);
      assert YearsOf(walk)[..|walk| - 1] == YearsOf(init);
    }
  }

  function YearSizes(walk: seq<Assignment>, order: seq<Years>): (r: seq<int>)
    ensures |r| == |order|
  {
    if order == [] then [] else [|InYear(walk, order[0])|] + YearSizes(walk, order[1..])
  }

  lemma {:induction false} YearSizesCounts(walk: seq<Assignment>, order: seq<Years>)
    ensures YearSizes(walk, order) == CountsOf(YearsOf(walk), order)
    decreases |order|
  {
    if order != [] {
      InYearCount(walk, order[0]);
      YearSizesCounts(walk, order[1..]);
    }
  }

  /** The years' lists partition the walk: over the years in key order, their lengths add up to its length. */
  lemma PerYearPartition(walk: seq<Assignment>)
    ensures Sum(YearSizes(walk, Firsts(YearsOf(walk)))) == |walk|
  {
    YearSizesCounts(walk, Firsts(YearsOf(walk)));
    CountsOfFirstsTotal(YearsOf(walk));
  }

  // ------------------------------------------------------------------ new_participants_each_year

  /** A column of the new-participants table. */
  datatype Column = YearsColumn | YearColumn(year: Years) | CompletelyNew

  /** One row: the year, per earlier year the entries first seen then, and the entries never seen before. */
  datatype NewRow = NewRow(years: Years, prevCounts: map<Years, nat>, completelyNew: nat)

  /** All years, ascending: the sorted keys of per_year. */
  function SortedYears(walk: seq<Assignment>): (r: seq<Years>)
    ensures Text.StrictlyAscending(r)
    ensures forall y :: y in r <==> y in YearsOf(walk)
  {
    FirstsMeans(YearsOf(walk));
    Text.SortedDistinct(Firsts(YearsOf(walk)))
  }

  /** All years but the last, ascending. */
  function PreviousYears(walk: seq<Assignment>): (r: seq<Years>)
    ensures Text.StrictlyAscending(r)
    ensures forall y :: y in r ==> y in YearsOf(walk)
    ensures |SortedYears(walk)| == 0 ==> r == []
    ensures |SortedYears(walk)| > 0 ==>
      |r| == |SortedYears(walk)| - 1 && SortedYears(walk)[|r|] !in r && forall y :: y in r ==> y < SortedYears(walk)[|r|]
  {
    var keys := SortedYears(walk);
    if keys == [] then [] else keys[..|keys| - 1]
  }

  function YearColumns(years: seq<Years>): (r: seq<Column>)
    ensures |r| == |years| && forall k :: 0 <= k < |years| ==> r[k] == YearColumn(years[k])
  {
    if years == [] then [] else YearColumns(years[..|years| - 1]) + [YearColumn(years[|years| - 1])]
  }

  /** Where an entry of person p in year `years` is counted: the first earlier year listing p, or None for completely new. */
  function Classify(p: PersonId, prevs: seq<Years>, years: Years, perYear: map<Years, seq<PersonId>>): (r: Option<Years>)
    requires forall y :: y in prevs ==> y in perYear
    ensures r.Some? ==> r.value in prevs
  {
    if prevs == [] then None
    else if prevs[0] != years && p in perYear[prevs[0]] then Some(prevs[0])
    else Classify(p, prevs[1..], years, perYear)
  }

  /** Classify names the earliest qualifying year, and None exactly when no year qualifies. */
  lemma {:induction false} ClassifyEarliest(p: PersonId, prevs: seq<Years>, years: Years, perYear: map<Years, seq<PersonId>>)
    requires forall y :: y in prevs ==> y in perYear
    ensures Classify(p, prevs, years, perYear).None? <==>
      forall k :: 0 <= k < |prevs| ==> !(prevs[k] != years && p in perYear[prevs[k]])
    ensures Classify(p, prevs, years, perYear).Some? ==>
      exists k :: 0 <= k < |prevs| && prevs[k] == Classify(p, prevs, years, perYear).value &&
        prevs[k] != years && p in perYear[prevs[k]] &&
        forall l :: 0 <= l < k ==> !(prevs[l] != years && p in perYear[prevs[l]])
    decreases |prevs|
  {
    if prevs != [] && !(prevs[0] != years && p in perYear[prevs[0]]) {
      var rest := prevs[1..];
      ClassifyEarliest(p, rest, years, perYear);
      if Classify(p, rest, years, perYear).Some? {
        var k :| 0 <= k < |rest| && rest[k] == Classify(p, rest, years, perYear).value &&
          rest[k] != years && p in perYear[rest[k]] &&
          forall l :: 0 <= l < k ==> !(rest[l] != years && p in perYear[rest[l]]);
        assert prevs[k + 1] == rest[k];
        forall l | 0 <= l < k + 1 ensures !(prevs[l] != years && p in perYear[prevs[l]]) {
          if l > 0 { assert prevs[l] == rest[l - 1]; }
        }
      } else {
        forall k | 0 <= k < |prevs| ensures !(prevs[k] != years && p in perYear[prevs[k]]) {
          if k > 0 { assert prevs[k] == rest[k - 1]; }
        }
      }
    }
  }

  /** The class of every entry of one year. */
  function Classes(ps: seq<PersonId>, prevs: seq<Years>, years: Years, perYear: map<Years, seq<PersonId>>): (r: seq<Option<Years>>)
    requires forall y :: y in prevs ==> y in perYear
    ensures |r| == |ps|
    ensures forall c :: c in r ==> c.None? || c.value in prevs
  {
    if ps == [] then []
    else Classes(ps[..|ps| - 1], prevs, years, perYear) + [Classify(ps[|ps| - 1], prevs, years, perYear)]
  }

  /** prev_years_counts after counting the given classes, starting from the zeroed dict. */
  function ClassCounts(start: map<Years, nat>, classes: seq<Option<Years>>): map<Years, nat>
  {
    if classes == [] then start
    else
      var m := ClassCounts(start, classes[..|classes| - 1]);
      var c := classes[|classes| - 1];
      if c.Some? && c.value in m then m[c.value := m[c.value] + 1] else m
  }

  /** The counts dict keeps its keys and adds to each the number of entries classed under it. */
  lemma {:induction false} ClassCountsMeans(start: map<Years, nat>, classes: seq<Option<Years>>)
    ensures ClassCounts(start, classes).Keys == start.Keys
    ensures forall y :: y in start ==> ClassCounts(start, classes)[y] == start[y] + Count(classes, Some(y))
    decreases |classes|
  {
    if classes != [] {
      ClassCountsMeans(start, classes[..|classes| - 1]);
    }
  }

  lemma ClassCountsSnoc(start: map<Years, nat>, classes: seq<Option<Years>>, c: Option<Years>)
    ensures var m := ClassCounts(start, classes);
      ClassCounts(start, classes + [c]) == if c.Some? && c.value in m then m[c.value := m[c.value] + 1] else m
  {
    assert (classes + [c])[..|classes|] == classes;
  }

  /** Counting never adds or removes a key. */
  lemma {:induction false} ClassCountsKeys(start: map<Years, nat>, classes: seq<Option<Years>>)
    ensures ClassCounts(start, classes).Keys == start.Keys
    decreases |classes|
  {
    if classes != [] {
      ClassCountsKeys(start, classes[..|classes| - 1]);
    }
  }

  function Zeroes(years: seq<Years>): map<Years, nat>
  {
    map y | y in years :: 0
  }

  /** The row of the i-th year in ascending order. */
  function RowFor(perYear: map<Years, seq<PersonId>>, keys: seq<Years>, prev: seq<Years>, i: nat): NewRow
    requires i < |keys| && i <= |prev|
    requires keys[i] in perYear && forall y :: y in prev ==> y in perYear
  {
    var classes := Classes(perYear[keys[i]], prev[..i], keys[i], perYear);
    NewRow(keys[i], ClassCounts(Zeroes(prev), classes), Count(classes, None))
  }

  /** A sequence between a first and a last element. */
  lemma Framed<T>(first: T, xs: seq<T>, last: T)
    ensures var s := [first] + xs + [last];
      |s| == |xs| + 2 && s[0] == first && s[|xs| + 1] == last &&
      forall k :: 0 <= k < |xs| ==> s[k + 1] == xs[k]
  {
  }

  /** The first n rows of the table. */
  function NewRows(perYear: map<Years, seq<PersonId>>, keys: seq<Years>, prev: seq<Years>, n: nat): (r: seq<NewRow>)
    requires n <= |keys| && |keys| <= |prev| + 1
    requires forall y :: y in keys ==> y in perYear
    requires forall y :: y in prev ==> y in perYear
    ensures |r| == n
  {
    if n == 0 then []
    else
      assert keys[n - 1] in keys;
      NewRows(perYear, keys, prev, n - 1) + [RowFor(perYear, keys, prev, n - 1)]
  }

  /** Row i of the table is the row of the i-th year. */
  lemma {:induction false} NewRowsAt(perYear: map<Years, seq<PersonId>>, keys: seq<Years>, prev: seq<Years>, n: nat, i: nat)
    requires n <= |keys| && |keys| <= |prev| + 1
    requires forall y :: y in keys ==> y in perYear
    requires forall y :: y in prev ==> y in perYear
    requires i < n
    ensures keys[i] in perYear && NewRows(perYear, keys, prev, n)[i] == RowFor(perYear, keys, prev, i)
    decreases n
  {
    var last := keys[n - 1];
    assert keys[i] in keys && last in keys;
    assert last in perYear;
    assert NewRows(perYear, keys, prev, n) == NewRows(perYear, keys, prev, n - 1) + [RowFor(perYear, keys, prev, n - 1)];
    if i < n - 1 {
      NewRowsAt(perYear, keys, prev, n - 1, i);
    }
  }

  /** new_participants_each_year: the header, then one row per year in ascending order. */
  method NewParticipantsEachYear(walk: seq<Assignment>) returns (fieldnames: seq<Column>, rows: seq<NewRow>)
    ensures var prev := PreviousYears(walk);
      |fieldnames| == |prev| + 2 && fieldnames[0] == YearsColumn && fieldnames[|prev| + 1] == CompletelyNew &&
      forall k :: 0 <= k < |prev| ==> fieldnames[k + 1] == YearColumn(prev[k])
    ensures (forall y :: y in SortedYears(walk) ==> y in PerYear(walk)) &&
      (forall y :: y in PreviousYears(walk) ==> y in PerYear(walk)) &&
      rows == NewRows(PerYear(walk), SortedYears(walk), PreviousYears(walk), |SortedYears(walk)|)
  {
    var perYear, _, order := PerYearEnrollment(walk);
    PerYearMeans(walk);
    var keys := Text.SortedDistinct(order);
    var allPrevious := if keys == [] then [] else keys[..|keys| - 1];
    assert keys == SortedYears(walk) && allPrevious == PreviousYears(walk);
    var columns := YearColumns(allPrevious);
    fieldnames := [YearsColumn] + columns + [CompletelyNew];
    Framed(YearsColumn, columns, CompletelyNew);
    rows := [];
    for i := 0 to |keys|
      invariant rows == NewRows(perYear, keys, allPrevious, i)
    {
      assert keys[i] in keys;
      var row := YearRow(perYear, keys, allPrevious, i);
      rows := rows + [row];
    }
  }

  /**
   * Classifying one more entry c: the count of the earlier year it was found in goes up by one,
   * or, when it was found in none, the number of new entries does.
   */
  lemma ClassesStep(ps: seq<PersonId>, j: nat, prevs: seq<Years>, years: Years, perYear: map<Years, seq<PersonId>>,
                    start: map<Years, nat>, c: Option<Years>)
    requires j < |ps| && forall y :: y in prevs ==> y in perYear
    requires Classify(ps[j], prevs, years, perYear) == c
    requires c.Some? ==> c.value in start
    ensures c.Some? ==> (c.value in ClassCounts(start, Classes(ps[..j], prevs, years, perYear)) &&
      ClassCounts(start, Classes(ps[..j + 1], prevs, years, perYear)) ==
      ClassCounts(start, Classes(ps[..j], prevs, years, perYear))[c.value := ClassCounts(start, Classes(ps[..j], prevs, years, perYear))[c.value] + 1])
    ensures c.None? ==>
      ClassCounts(start, Classes(ps[..j + 1], prevs, years, perYear)) == ClassCounts(start, Classes(ps[..j], prevs, years, perYear))
    ensures Count(Classes(ps[..j + 1], prevs, years, perYear), None) ==
      Count(Classes(ps[..j], prevs, years, perYear), None) + (if c.None? then 1 else 0)
  {
    var before := Classes(ps[..j], prevs, years, perYear);
    assert ps[..j + 1][..j] == ps[..j];
    assert Classes(ps[..j + 1], prevs, years, perYear) == before + [c];
    ClassCountsSnoc(start, before, c);
    CountSnoc(before, c, None);
    ClassCountsKeys(start, before);
  }

  /** One iteration of the year loop: classify every entry of the year by walking the earlier years. */
  method YearRow(perYear: map<Years, seq<PersonId>>, keys: seq<Years>, allPrevious: seq<Years>, i: nat) returns (row: NewRow)
    requires i < |keys| && i <= |allPrevious|
    requires keys[i] in perYear && forall y :: y in allPrevious ==> y in perYear
    ensures row == RowFor(perYear, keys, allPrevious, i)
  {
    var years := keys[i];
    var newCount := 0;
    var prevCounts := map y | y in allPrevious :: 0;
    var ps := perYear[years];
    ghost var prevs := allPrevious[..i];
    for j := 0 to |ps|
      invariant newCount == Count(Classes(ps[..j], prevs, years, perYear), None)
      invariant prevCounts == ClassCounts(Zeroes(allPrevious), Classes(ps[..j], prevs, years, perYear))
    {
      var p := ps[j];
      var found, k := FirstEarlierYear(p, perYear, allPrevious, i, years);
      if found {
        assert allPrevious[k] in Zeroes(allPrevious);
        ClassesStep(ps, j, prevs, years, perYear, Zeroes(allPrevious), Some(allPrevious[k]));
        prevCounts := prevCounts[allPrevious[k] := prevCounts[allPrevious[k]] + 1];
      } else {
        ClassesStep(ps, j, prevs, years, perYear, Zeroes(allPrevious), None);
        newCount := newCount + 1;
      }
    }
    assert ps[..|ps|] == ps;
    row := NewRow(years, prevCounts, newCount);
  }

  /**
   * The inner search of the year loop: walk the earlier years in order and stop at the first one
   * other than `years` that lists p; found is false when the walk ends without one.
   */
  method FirstEarlierYear(p: PersonId, perYear: map<Years, seq<PersonId>>, allPrevious: seq<Years>, i: nat, years: Years)
    returns (found: bool, k: nat)
    requires i <= |allPrevious| && forall y :: y in allPrevious ==> y in perYear
    ensures found ==> k < i && Classify(p, allPrevious[..i], years, perYear) == Some(allPrevious[k])
    ensures !found ==> Classify(p, allPrevious[..i], years, perYear) == None
  {
    found, k := false, 0;
    while k < i
      invariant k <= i
      invariant Classify(p, allPrevious[..i], years, perYear) == Classify(p, allPrevious[k..i], years, perYear)
    {
      var prevYears := allPrevious[k];
      assert allPrevious[k..i][0] == prevYears && allPrevious[k..i][1..] == allPrevious[k + 1..i];
      if prevYears != years && p in perYear[prevYears] {
        found := true;
        break;
      }
      k := k + 1;
    }
  }

  function PrevSum(prevCounts: map<Years, nat>, years: seq<Years>): int
    requires forall k :: 0 <= k < |years| ==> years[k] in prevCounts
  {
    if years == [] then 0 else prevCounts[years[0]] + PrevSum(prevCounts, years[1..])
  }

  function Somes(years: seq<Years>): (r: seq<Option<Years>>)
    ensures |r| == |years|
  {
    if years == [] then [] else [Some(years[0])] + Somes(years[1..])
  }

  lemma {:induction false} SomesAt(years: seq<Years>, k: nat)
    requires k < |years|
    ensures Somes(years)[k] == Some(years[k])
    decreases |years|
  {
    if k > 0 {
      SomesAt(years[1..], k - 1);
    }
  }

  /** The possible classes, None first and then one per earlier year, are all different. */
  lemma ClassTagsDistinct(prev: seq<Years>)
    requires Distinct(prev)
    ensures Distinct([None] + Somes(prev))
  {
    var d := [None] + Somes(prev);
    forall a, b | 0 <= a < b < |d| ensures d[a] != d[b] {
      SomesAt(prev, b - 1);
      if a > 0 {
        SomesAt(prev, a - 1);
      }
    }
  }

  /** Every class of a year's entries is one of the possible classes. */
  lemma ClassesTagged(classes: seq<Option<Years>>, prev: seq<Years>, i: nat)
    requires i <= |prev|
    requires forall c :: c in classes ==> c.None? || c.value in prev[..i]
    ensures forall c :: c in classes ==> c in [None] + Somes(prev)
  {
    forall c | c in classes ensures c in [None] + Somes(prev) {
      if c.Some? {
        var k :| 0 <= k < i && prev[..i][k] == c.value;
        SomesAt(prev, k);
        assert ([None] + Somes(prev))[k + 1] == c;
      }
    }
  }

  lemma {:induction false} PrevSumCounts(prevCounts: map<Years, nat>, years: seq<Years>, classes: seq<Option<Years>>)
    requires forall k :: 0 <= k < |years| ==> years[k] in prevCounts && prevCounts[years[k]] == Count(classes, Some(years[k]))
    ensures PrevSum(prevCounts, years) == CountSum(classes, Somes(years))
    decreases |years|
  {
    if years != [] {
      assert forall k :: 0 <= k < |years[1..]| ==> years[1..][k] == years[k + 1];
      PrevSumCounts(prevCounts, years[1..], classes);
      assert Somes(years)[1..] == Somes(years[1..]);
    }
  }

  lemma AscendingDistinct(s: seq<int>)
    requires Text.StrictlyAscending(s)
    ensures Distinct(s)
  {
  }

  /**
   * Every entry of a year is counted exactly once: the earlier-year counts plus completely_new add up
   * to the year's entry count.
   */
  lemma RowTotal(perYear: map<Years, seq<PersonId>>, keys: seq<Years>, prev: seq<Years>, i: nat)
    requires i < |keys| && i <= |prev|
    requires keys[i] in perYear && forall y :: y in prev ==> y in perYear
    requires Text.StrictlyAscending(prev)
    ensures var row := RowFor(perYear, keys, prev, i);
      (forall k :: 0 <= k < |prev| ==> prev[k] in row.prevCounts) &&
      row.completelyNew + PrevSum(row.prevCounts, prev) == |perYear[keys[i]]|
  {
    var row := RowFor(perYear, keys, prev, i);
    var classes := Classes(perYear[keys[i]], prev[..i], keys[i], perYear);
    ClassCountsMeans(Zeroes(prev), classes);
    var d := [None] + Somes(prev);
    AscendingDistinct(prev);
    ClassTagsDistinct(prev);
    ClassesTagged(classes, prev, i);
    CountSumTotal(classes, d);
    assert d[1..] == Somes(prev);
    PrevSumCounts(row.prevCounts, prev, classes);
  }

  /** In the earliest year there is no earlier year: every earlier-year count is 0 and every entry is new. */
  lemma FirstYearAllNew(perYear: map<Years, seq<PersonId>>, keys: seq<Years>, prev: seq<Years>)
    requires 0 < |keys| && keys[0] in perYear && forall y :: y in prev ==> y in perYear
    ensures var row := RowFor(perYear, keys, prev, 0);
      (forall y :: y in row.prevCounts <==> y in prev) &&
      (forall y :: y in row.prevCounts ==> row.prevCounts[y] == 0) &&
      row.completelyNew == |perYear[keys[0]]|
  {
    var classes := Classes(perYear[keys[0]], prev[..0], keys[0], perYear);
    ClassCountsMeans(Zeroes(prev), classes);
    AllNone(classes);
  }

  lemma {:induction false} AllNone(classes: seq<Option<Years>>)
    requires forall c :: c in classes ==> c == None
    ensures Count(classes, None) == |classes|
    ensures forall y :: Count(classes, Some(y)) == 0
    decreases |classes|
  {
    if classes != [] {
      var init := classes[..|classes| - 1];
      assert forall c :: c in init ==> c in classes;
      assert classes[|classes| - 1] in classes;
      AllNone(init);
    }
  }

  // ------------------------------------------------------------------ histogram

  datatype HistogramRow = HistogramRow(times: int, count: int)

  /** Per participant, in order of first appearance, the number of times they were assigned. */
  function TimesOf(ps: seq<PersonId>): (r: seq<int>)
    ensures |r| == |Firsts(ps)|
  {
    CountsOf(ps, Firsts(ps))
  }

  /** The rows list, ascending by times, how many participants were assigned exactly that many times. */
  predicate IsHistogramOf(rows: seq<HistogramRow>, ps: seq<PersonId>)
  {
    var times := TimesOf(ps);
    var d := Text.SortedDistinct(Firsts(times));
    |rows| == |d| && forall k :: 0 <= k < |d| ==> rows[k] == HistogramRow(d[k], Count(times, d[k]))
  }

  /** histogram: count each participant's assignments, then count participants per number of assignments. */
  method Histogram(walk: seq<Assignment>) returns (fields: seq<string>, rows: seq<HistogramRow>)
    ensures fields == ["times", "count"]
    ensures IsHistogramOf(rows, Persons(walk))
    ensures forall i, j :: 0 <= i < j < |rows| ==> rows[i].times < rows[j].times
  {
    ghost var ps := Persons(walk);
    var participantCount, participants := CountParticipants(walk);
    FirstsMeans(ps);
    forall p | p in participants ensures p in participantCount {
      CountMapAt(ps, p);
    }
    var histogram, keys := CountTimes(participantCount, participants);
    LookedTimes(ps);
    var sortedTimes := Text.SortedDistinct(keys);
    HistogramKeys(histogram, keys, TimesOf(ps));
    rows := HistogramRows(histogram, sortedTimes);
    fields := ["times", "count"];
  }

  /** The first loop of histogram: each participant's number of assignments, and the participants in order of first appearance. */
  method CountParticipants(walk: seq<Assignment>) returns (participantCount: map<PersonId, nat>, participants: seq<PersonId>)
    ensures participantCount == CountMap(Persons(walk))
    ensures participants == Firsts(Persons(walk))
  {
    ghost var ps := Persons(walk);
    participantCount, participants := map[], [];
    for i := 0 to |walk|
      invariant participantCount == CountMap(ps[..i])
      invariant participants == Firsts(ps[..i])
    {
      var id := walk[i].person;
      PersonAt(walk, i);
      assert id == ps[i];
      CountMapStep(ps, i, participantCount);
      if id in participantCount {
        participantCount := participantCount[id := participantCount[id] + 1];
      } else {
        participantCount := participantCount[id := 0];
        participants := participants + [id];
        participantCount := participantCount[id := participantCount[id] + 1];
      }
    }
    assert ps[..|walk|] == ps;
  }

  /** One row per listed number of times, with the number of participants assigned that many times. */
  function HistogramRows(histogram: map<int, nat>, sortedTimes: seq<int>): (rows: seq<HistogramRow>)
    requires forall k :: 0 <= k < |sortedTimes| ==> sortedTimes[k] in histogram
    ensures |rows| == |sortedTimes|
    ensures forall k :: 0 <= k < |sortedTimes| ==> rows[k] == HistogramRow(sortedTimes[k], histogram[sortedTimes[k]])
  {
    seq(|sortedTimes|, k requires 0 <= k < |sortedTimes| => HistogramRow(sortedTimes[k], histogram[sortedTimes[k]]))
  }

  /** The values of a dict in the order of the given keys (the order in which items() yields them). */
  function Looked<K>(m: map<K, nat>, ks: seq<K>): (r: seq<int>)
    requires forall k :: k in ks ==> k in m
    ensures |r| == |ks|
  {
    if ks == [] then [] else Looked(m, ks[..|ks| - 1]) + [m[ks[|ks| - 1]]]
  }

  lemma {:induction false} LookedAt<K>(m: map<K, nat>, ks: seq<K>, j: nat)
    requires forall k :: k in ks ==> k in m
    requires j < |ks|
    ensures Looked(m, ks)[j] == m[ks[j]]
    decreases |ks|
  {
    if j < |ks| - 1 {
      LookedAt(m, ks[..|ks| - 1], j);
    }
  }

  /** Reading the participants' counts in key order gives each participant's number of assignments. */
  lemma LookedTimes(ps: seq<PersonId>)
    ensures forall p :: p in Firsts(ps) ==> p in CountMap(ps)
    ensures Looked(CountMap(ps), Firsts(ps)) == TimesOf(ps)
  {
    var ks := Firsts(ps);
    forall p | p in ks ensures p in CountMap(ps) {
      CountMapAt(ps, p);
    }
    forall j | 0 <= j < |ks| ensures Looked(CountMap(ps), ks)[j] == TimesOf(ps)[j] {
      LookedAt(CountMap(ps), ks, j);
      CountMapAt(ps, ks[j]);
    }
  }

  /** The second loop of histogram: count the participants per number of assignments. */
  method CountTimes(participantCount: map<PersonId, nat>, participants: seq<PersonId>)
    returns (histogram: map<int, nat>, keys: seq<int>)
    requires forall p :: p in participants ==> p in participantCount
    ensures histogram == CountMap(Looked(participantCount, participants))
    ensures keys == Firsts(Looked(participantCount, participants))
  {
    ghost var times := Looked(participantCount, participants);
    histogram, keys := map[], [];
    for j := 0 to |participants|
      invariant histogram == CountMap(times[..j])
      invariant keys == Firsts(times[..j])
    {
      var p := participants[j];
      assert p in participants;
      var count := participantCount[p];
      LookedAt(participantCount, participants, j);
      assert count == times[j];
      CountMapStep(times, j, histogram);
      if count in histogram {
        histogram := histogram[count := histogram[count] + 1];
      } else {
        histogram := histogram[count := 1];
        keys := keys + [count];
      }
    }
    assert times[..|participants|] == times;
  }

  /** Every key of the sorted histogram is in the counting dict, with the number of its occurrences. */
  lemma HistogramKeys(histogram: map<int, nat>, keys: seq<int>, times: seq<int>)
    requires histogram == CountMap(times) && keys == Firsts(times)
    ensures forall k :: 0 <= k < |Text.SortedDistinct(keys)| ==>
      Text.SortedDistinct(keys)[k] in histogram && histogram[Text.SortedDistinct(keys)[k]] == Count(times, Text.SortedDistinct(keys)[k])
  {
    var d := Text.SortedDistinct(keys);
    FirstsMeans(times);
    forall k | 0 <= k < |d| ensures d[k] in histogram && histogram[d[k]] == Count(times, d[k]) {
      assert d[k] in d;
      CountMapAt(times, d[k]);
    }
  }

  function CountColumn(rows: seq<HistogramRow>): int
  {
    if rows == [] then 0 else rows[0].count + CountColumn(rows[1..])
  }

  function WeightedColumn(rows: seq<HistogramRow>): int
  {
    if rows == [] then 0 else rows[0].times * rows[0].count + WeightedColumn(rows[1..])
  }

  lemma {:induction false} ColumnsAreCountSums(rows: seq<HistogramRow>, times: seq<int>, d: seq<int>)
    requires |rows| == |d| && forall k :: 0 <= k < |d| ==> rows[k] == HistogramRow(d[k], Count(times, d[k]))
    ensures CountColumn(rows) == CountSum(times, d)
    ensures WeightedColumn(rows) == WeightedCountSum(times, d)
    decreases |d|
  {
    if d != [] {
      ColumnsAreCountSums(rows[1..], times, d[1..]);
    }
  }

  /** The counts of the histogram add up to the number of distinct participants. */
  lemma HistogramCountsParticipants(rows: seq<HistogramRow>, ps: seq<PersonId>)
    requires IsHistogramOf(rows, ps)
    ensures CountColumn(rows) == |set p | p in ps|
  {
    var times := TimesOf(ps);
    var d := Text.SortedDistinct(Firsts(times));
    ColumnsAreCountSums(rows, times, d);
    AscendingDistinct(d);
    FirstsMeans(times);
    CountSumTotal(times, d);
    FirstsMeans(ps);
    DistinctCard(Firsts(ps));
    assert (set p | p in ps) == (set p | p in Firsts(ps));
  }

  /** Times weighted by counts add up to the number of assignments. */
  lemma HistogramTotal(rows: seq<HistogramRow>, ps: seq<PersonId>)
    requires IsHistogramOf(rows, ps)
    ensures WeightedColumn(rows) == |ps|
  {
    var times := TimesOf(ps);
    var d := Text.SortedDistinct(Firsts(times));
    ColumnsAreCountSums(rows, times, d);
    AscendingDistinct(d);
    FirstsMeans(times);
    WeightedCountSumTotal(times, d);
    CountsOfFirstsTotal(ps);
  }

  // ------------------------------------------------------------------ depts_histogram

  datatype DeptsRow = DeptsRow(years: Years, assignedDepts: nat, fromDepts: nat)

  function AssignedDepts(es: seq<Enrollment>): (r: seq<string>)
    ensures |r| == |es|
  {
    if es == [] then [] else AssignedDepts(es[..|es| - 1]) + [es[|es| - 1].assignedDept]
  }

  function FromDepts(es: seq<Enrollment>): (r: seq<string>)
    ensures |r| == |es|
  {
    if es == [] then [] else FromDepts(es[..|es| - 1]) + [es[|es| - 1].fromDept]
  }

  /** The row of one year: the numbers of distinct session departments and home departments among its enrollments. */
  function DeptsRowOf(years: Years, es: seq<Enrollment>): (r: DeptsRow)
    ensures r.assignedDepts <= |es| && r.fromDepts <= |es|
    ensures es != [] ==> r.assignedDepts >= 1 && r.fromDepts >= 1
  {
    if es != [] then
      ValueSetMembers(AssignedDepts(es));
      ValueSetMembers(FromDepts(es));
      assert AssignedDepts(es)[0] in ValueSet(AssignedDepts(es));
      assert FromDepts(es)[0] in ValueSet(FromDepts(es));
      DeptsRow(years, |ValueSet(AssignedDepts(es))|, |ValueSet(FromDepts(es))|)
    else
      DeptsRow(years, 0, 0)
  }

  /** The first n rows: the years of order, each with that year's list of enrollments. */
  function DeptsRows(perYearEnrollment: map<Years, seq<Enrollment>>, order: seq<Years>, n: nat): (r: seq<DeptsRow>)
    requires n <= |order|
    requires forall y :: y in order ==> y in perYearEnrollment
    ensures |r| == n
  {
    if n == 0 then []
    else
      var last := order[n - 1];
      assert last in order;
      DeptsRows(perYearEnrollment, order, n - 1) + [DeptsRowOf(last, perYearEnrollment[last])]
  }

  lemma {:induction false} DeptsRowsAt(perYearEnrollment: map<Years, seq<Enrollment>>, order: seq<Years>, n: nat, k: nat)
    requires n <= |order|
    requires forall y :: y in order ==> y in perYearEnrollment
    requires k < n
    ensures order[k] in perYearEnrollment
    ensures DeptsRows(perYearEnrollment, order, n)[k] == DeptsRowOf(order[k], perYearEnrollment[order[k]])
    decreases n
  {
    var y, last := order[k], order[n - 1];
    assert y in order && last in order;
    var rows := DeptsRows(perYearEnrollment, order, n - 1);
    assert DeptsRows(perYearEnrollment, order, n) == rows + [DeptsRowOf(last, perYearEnrollment[last])];
    if k < n - 1 {
      DeptsRowsAt(perYearEnrollment, order, n - 1, k);
      assert (rows + [DeptsRowOf(last, perYearEnrollment[last])])[k] == rows[k];
    }
  }

  /** Every year of the walk is a key of per_year_enrollment. */
  lemma OrderKeys(walk: seq<Assignment>)
    ensures forall y :: y in Firsts(YearsOf(walk)) ==> y in PerYearEnrollments(walk)
  {
    forall y | y in Firsts(YearsOf(walk)) ensures y in PerYearEnrollments(walk) {
      PerYearKeys(walk, y);
    }
  }

  /**
   * The table has one row per year, in order of first appearance, counting the distinct session
   * departments and home departments among that year's assignments.
   */
  lemma DeptsRowsMeans(walk: seq<Assignment>)
    ensures forall y :: y in Firsts(YearsOf(walk)) ==> y in PerYearEnrollments(walk)
    ensures forall k :: 0 <= k < |Firsts(YearsOf(walk))| ==>
      DeptsRows(PerYearEnrollments(walk), Firsts(YearsOf(walk)), |Firsts(YearsOf(walk))|)[k] ==
      DeptsRowOf(Firsts(YearsOf(walk))[k], Enrollments(InYear(walk, Firsts(YearsOf(walk))[k])))
  {
    OrderKeys(walk);
    PerYearMeans(walk);
    var order := Firsts(YearsOf(walk));
    forall k | 0 <= k < |order| ensures
      DeptsRows(PerYearEnrollments(walk), order, |order|)[k] ==
      DeptsRowOf(order[k], Enrollments(InYear(walk, order[k])))
    {
      DeptsRowsAt(PerYearEnrollments(walk), order, |order|, k);
    }
  }

  /** depts_histogram: one row per year, in the key order of per_year_enrollment. */
  method DeptsHistogram(walk: seq<Assignment>) returns (fields: seq<string>, rows: seq<DeptsRow>)
    ensures fields == [YearsColumnName, "assigned_depts", "from_depts"]
    ensures (forall y :: y in Firsts(YearsOf(walk)) ==> y in PerYearEnrollments(walk)) &&
      rows == DeptsRows(PerYearEnrollments(walk), Firsts(YearsOf(walk)), |Firsts(YearsOf(walk))|)
  {
    var _, perYearEnrollment, order := PerYearEnrollment(walk);
    OrderKeys(walk);
    rows := [];
    for k := 0 to |order|
      invariant rows == DeptsRows(perYearEnrollment, order, k)
    {
      var years := order[k];
      assert years in order;
      var row := YearDepts(years, perYearEnrollment[years]);
      rows := rows + [row];
    }
    fields := [YearsColumnName, "assigned_depts", "from_depts"];
  }

  /** One iteration of the year loop: collect the two sets of departments of one year. */
  method YearDepts(years: Years, enrollments: seq<Enrollment>) returns (row: DeptsRow)
    ensures row == DeptsRowOf(years, enrollments)
  {
    var assignedDepts: set<string> := {};
    var fromDepts: set<string> := {};
    for j := 0 to |enrollments|
      invariant assignedDepts == ValueSet(AssignedDepts(enrollments[..j]))
      invariant fromDepts == ValueSet(FromDepts(enrollments[..j]))
    {
      var e := enrollments[j];
      assert enrollments[..j + 1][..j] == enrollments[..j];
      assignedDepts := assignedDepts + {e.assignedDept};
      fromDepts := fromDepts + {e.fromDept};
    }
    assert enrollments[..|enrollments|] == enrollments;
    row := DeptsRow(years, |assignedDepts|, |fromDepts|);
  }
}
