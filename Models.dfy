/**
 * The helpers of the registration models: a person's display name and
 * affiliation, the normalisers that run before a department or a user is
 * saved, the rule that keeps a single exchange active, the Dutch display name
 * of a session, the guard on alternative addresses, and the merge of two
 * person records into one.
 */
module Models {
  import opened Wrappers
  import opened Domain
  import Text

  // ---------------------------------------------------------------- persons

  /** An auth user; last_login stays None until the first login. Times are integers. */
  datatype User = User(
    username: string,
    email: string,
    firstName: string,
    lastName: string,
    dateJoined: int,
    lastLogin: Option<int>)

  /** A person; departments holds the slugs of the linked departments. */
  datatype Person = Person(
    pk: PersonId,
    user: User,
    prefixSurname: string,
    url: string,
    language: Lang,
    departments: set<string>,
    otherAffiliation: string)

  /** The filter of full_name: a part counts when it is non-empty and not all whitespace. */
  predicate Kept(part: string)
  {
    part != "" && !Text.IsBlank(part)
  }

  /** The parts that pass the filter, in their order. */
  function KeptParts(parts: seq<string>): seq<string>
  {
    if parts == [] then [] else (if Kept(parts[0]) then [parts[0]] else []) + KeptParts(parts[1..])
  }

  /** Every part left is kept, and none is left exactly when no part is kept. */
  lemma {:induction false} KeptPartsMeans(parts: seq<string>)
    ensures forall i :: 0 <= i < |KeptParts(parts)| ==> Kept(KeptParts(parts)[i])
    ensures KeptParts(parts) == [] <==> forall i :: 0 <= i < |parts| ==> !Kept(parts[i])
    decreases |parts|
  {
    if parts != [] {
      KeptPartsMeans(parts[1..]);
      assert forall i :: 1 <= i < |parts| ==> parts[i] == parts[1..][i - 1];
    }
  }

  /** Given names, prefix and surnames, in this order. */
  function NameParts(p: Person): seq<string>
  {
    [p.user.firstName, p.prefixSurname, p.user.lastName]
  }

  /** A join whose first part is kept is kept itself. */
  lemma JoinKept(sep: string, parts: seq<string>)
    requires |parts| >= 1 && Kept(parts[0])
    ensures Kept(Text.Join(sep, parts))
  {
    Text.JoinHead(sep, parts);
    var j := Text.Join(sep, parts);
    var k :| 0 <= k < |parts[0]| && !Text.IsSpace(parts[0][k]);
    assert j[k] == parts[0][k];
  }

  /** full_name: the kept name parts joined by single spaces, or the username when that is blank. */
  function FullName(p: Person): string
  {
    var name := Text.Join(" ", KeptParts(NameParts(p)));
    if !Kept(name) then p.user.username else name
  }

  /** The name is the username exactly when no part is kept, and otherwise the kept parts joined, never blank. */
  lemma FullNameParts(p: Person)
    ensures KeptParts(NameParts(p)) == [] ==> FullName(p) == p.user.username
    ensures KeptParts(NameParts(p)) != [] ==> FullName(p) == Text.Join(" ", KeptParts(NameParts(p))) && Kept(FullName(p))
  {
    var parts := KeptParts(NameParts(p));
    KeptPartsMeans(NameParts(p));
    if parts != [] {
      JoinKept(" ", parts);
    }
  }

  /** get_affiliation, given the department strings in the order of their slugs. */
  function GetAffiliation(departmentNames: seq<string>, otherAffiliation: string): string
  {
    var departments := if |otherAffiliation| > 0 then departmentNames + [otherAffiliation] else departmentNames;
    Text.Join(", ", departments)
  }

  /** The affiliation is the department list, extended by ", " and the other affiliation when there is one. */
  lemma AffiliationParts(departmentNames: seq<string>, otherAffiliation: string)
    ensures otherAffiliation == "" ==> GetAffiliation(departmentNames, otherAffiliation) == Text.Join(", ", departmentNames)
    ensures otherAffiliation != "" && departmentNames == [] ==> GetAffiliation(departmentNames, otherAffiliation) == otherAffiliation
    ensures otherAffiliation != "" && departmentNames != [] ==>
      GetAffiliation(departmentNames, otherAffiliation) == Text.Join(", ", departmentNames) + ", " + otherAffiliation
  {
    if otherAffiliation != "" {
      if departmentNames == [] {
        assert departmentNames + [otherAffiliation] == [otherAffiliation];
      } else {
        Text.JoinAppend(", ", departmentNames, otherAffiliation);
      }
    }
  }

  // ---------------------------------------------------------------- normalisers

  /** The characters of the slug pattern [-&()\s]. */
  predicate SlugSeparator(c: char)
  {
    c == '-' || c == '&' || c == '(' || c == ')' || Text.IsSpace(c)
  }

  predicate IsUnderscore(c: char) { c == '_' }

  /** to_lower_slug: separator runs become "_", then lower case, then "_" stripped; a non-string becomes "". */
  function ToLowerSlug(slug: Option<string>): string
  {
    match slug
    case None => ""
    case Some(s) => Text.Strip(Text.Lower(Text.CollapseRuns(s, SlugSeparator, '_')), IsUnderscore)
  }

  /** A normalised slug: no upper-case letter, no separator, no "_" at either end. */
  predicate IsSlug(s: string)
  {
    && (forall i :: 0 <= i < |s| ==> !Text.IsUpper(s[i]) && !SlugSeparator(s[i]))
    && (s == [] || (s[0] != '_' && s[|s| - 1] != '_'))
  }

  lemma ToLowerSlugIsSlug(slug: Option<string>)
    ensures IsSlug(ToLowerSlug(slug))
  {
    if slug.Some? {
      var c := Text.CollapseRuns(slug.value, SlugSeparator, '_');
      var l := Text.Lower(c);
      assert forall i :: 0 <= i < |l| ==> !Text.IsUpper(l[i]) && !SlugSeparator(l[i]) by {
        forall i | 0 <= i < |l| ensures !Text.IsUpper(l[i]) && !SlugSeparator(l[i]) {
          assert l[i] == Text.LowerChar(c[i]);
        }
      }
      var r := Text.Strip(l, IsUnderscore);
      Text.StripFrom(l, IsUnderscore);
      forall i | 0 <= i < |r| ensures !Text.IsUpper(r[i]) && !SlugSeparator(r[i]) {
        var j :| 0 <= j < |l| && l[j] == r[i];
      }
    }
  }

  /** A normalised slug is left as it is. */
  lemma ToLowerSlugFixes(s: string)
    requires IsSlug(s)
    ensures ToLowerSlug(Some(s)) == s
  {
    Text.CollapseNoClass(s, SlugSeparator, '_', false);
    Text.LowerOfLowered(s);
    Text.StripClean(s, IsUnderscore);
  }

  /** Normalising a slug twice gives the same slug as normalising it once. */
  lemma ToLowerSlugIdempotent(slug: Option<string>)
    ensures ToLowerSlug(Some(ToLowerSlug(slug))) == ToLowerSlug(slug)
  {
    ToLowerSlugIsSlug(slug);
    ToLowerSlugFixes(ToLowerSlug(slug));
  }

  /** to_lower_username: lower case; a non-string becomes "". */
  function ToLowerUsername(username: Option<string>): (r: string)
    ensures username.None? ==> r == ""
    ensures username.Some? ==> |r| == |username.value| && forall i :: 0 <= i < |r| ==> r[i] == Text.LowerChar(username.value[i])
    ensures Text.NoUpper(r)
  {
    if username.Some? then Text.Lower(username.value) else ""
  }

  /** A lower-cased username is left as it is. */
  lemma ToLowerUsernameIdempotent(username: Option<string>)
    ensures ToLowerUsername(Some(ToLowerUsername(username))) == ToLowerUsername(username)
  {
    Text.LowerOfLowered(ToLowerUsername(username));
  }

  // ---------------------------------------------------------------- session names

  /** A Dutch description names the session when it has a subtitle or a title. */
  predicate DutchNamed(d: SessionDescription)
  {
    d.language == Nl && (d.subtitle != "" || d.title != "")
  }

  /** The name a naming Dutch description gives: "title subtitle", or the title alone. */
  function DutchName(d: SessionDescription): string
  {
    if d.subtitle != "" then d.title + " " + d.subtitle else d.title
  }

  /**
   * get_prefer_dutch_name over the descriptions in their stored order; fallback
   * is the session's __str__. The first naming Dutch description decides; with
   * none, the fallback is returned.
   */
  function GetPreferDutchName(descriptions: seq<SessionDescription>, fallback: string): (r: string)
    ensures (forall k :: 0 <= k < |descriptions| ==> !DutchNamed(descriptions[k])) ==> r == fallback
    ensures forall k :: (0 <= k < |descriptions| && DutchNamed(descriptions[k]) &&
      (forall j :: 0 <= j < k ==> !DutchNamed(descriptions[j]))) ==> r == DutchName(descriptions[k])
    decreases |descriptions|
  {
    if descriptions == [] then fallback
    else
      var d := descriptions[0];
      var rest := descriptions[1..];
      assert forall k :: 1 <= k < |descriptions| ==> descriptions[k] == rest[k - 1];
      if d.language == Nl && d.subtitle != "" then d.title + " " + d.subtitle
      else if d.language == Nl && d.title != "" then d.title
      else GetPreferDutchName(rest, fallback)
  }

  // ---------------------------------------------------------------- exchanges

  datatype Exchange = Exchange(pk: ExchangeId, begin: int, end: int, active: bool)

  datatype SaveError = IntegrityError

  /** What the pre-save hook does to one stored exchange when x is saved. */
  function Deactivate(e: Exchange, x: Exchange): Exchange
  {
    if x.active && e.active && e.begin != x.begin then e.(active := false) else e
  }

  /** Another stored exchange already has x's begin or end. */
  predicate Clashes(rows: seq<Exchange>, x: Exchange)
  {
    exists i :: 0 <= i < |rows| && rows[i].pk != x.pk && (rows[i].begin == x.begin || rows[i].end == x.end)
  }

  /** The stored exchanges after writing x: the row with x's pk is replaced, or x is appended. */
  function Upsert(rows: seq<Exchange>, x: Exchange): (r: seq<Exchange>)
    ensures x in r
    ensures forall i :: 0 <= i < |r| ==> r[i] == x || r[i] in rows
  {
    if rows == [] then [x]
    else if rows[0].pk == x.pk then [x] + rows[1..]
    else [rows[0]] + Upsert(rows[1..], x)
  }

  /** The exchange table, with the hook that runs before every save. */
  class ExchangeTable {
    var rows: seq<Exchange>

    /** pk, begin and end are unique columns. */
    ghost predicate Valid()
      reads this
    {
      forall i, j :: 0 <= i < j < |rows| ==>
        rows[i].pk != rows[j].pk && rows[i].begin != rows[j].begin && rows[i].end != rows[j].end
    }

    predicate AtMostOneActive()
      reads this
    {
      forall i, j :: 0 <= i < j < |rows| ==> !(rows[i].active && rows[j].active)
    }

    constructor ()
      ensures rows == [] && Valid()
    {
      rows := [];
    }

    /** The pre-save hook active_exchange: when x is active, every stored exchange with another begin is deactivated. */
    method ActiveExchange(x: Exchange)
      modifies this
      ensures |rows| == |old(rows)|
      ensures forall k :: 0 <= k < |rows| ==> rows[k] == Deactivate(old(rows)[k], x)
    {
      if x.active {
        for i := 0 to |rows|
          invariant |rows| == |old(rows)|
          invariant forall k :: 0 <= k < i ==> rows[k] == Deactivate(old(rows)[k], x)
          invariant forall k :: i <= k < |rows| ==> rows[k] == old(rows)[k]
        {
          if rows[i].active && rows[i].begin != x.begin {
            rows := rows[i := rows[i].(active := false)];
          }
        }
      }
    }

    /**
     * Saves x: the hook runs first; then x is written, which fails on a
     * begin or end already used by another exchange. The deactivations are not
     * undone by the failure.
     */
    method Save(x: Exchange) returns (result: Result<(), SaveError>)
      requires Valid()
      modifies this
      ensures Valid()
      ensures |old(rows)| <= |rows|
      ensures result.Err? <==> Clashes(old(rows), x)
      ensures result.Err? ==> |rows| == |old(rows)| && forall i :: 0 <= i < |rows| ==> rows[i] == Deactivate(old(rows)[i], x)
      ensures result.Ok? ==> rows == Upsert(seq(|old(rows)|, i requires 0 <= i < |old(rows)| => Deactivate(old(rows)[i], x)), x)
      ensures x.active ==> forall i :: 0 <= i < |rows| && rows[i].begin != x.begin ==> !rows[i].active
      ensures result.Ok? && x.active ==> forall i :: 0 <= i < |rows| ==> (rows[i].active <==> rows[i] == x)
      ensures old(AtMostOneActive()) ==> AtMostOneActive()
    {
      ghost var before := rows;
      ActiveExchange(x);
      assert Valid();
      var clash := exists i :: 0 <= i < |rows| && rows[i].pk != x.pk && (rows[i].begin == x.begin || rows[i].end == x.end);
      assert clash <==> Clashes(before, x) by {
        assert forall k :: 0 <= k < |rows| ==> rows[k].pk == before[k].pk && rows[k].begin == before[k].begin && rows[k].end == before[k].end;
      }
      if clash {
        result := Err(IntegrityError);
        if old(AtMostOneActive()) {
          forall i, j | 0 <= i < j < |rows| ensures !(rows[i].active && rows[j].active) {
            assert rows[i].active ==> before[i].active;
            assert rows[j].active ==> before[j].active;
          }
        }
      } else {
        var deactivated := rows;
        assert deactivated == seq(|before|, i requires 0 <= i < |before| => Deactivate(before[i], x));
        rows := Upsert(rows, x);
        result := Ok(());
        UpsertKeeps(deactivated, x);
        if x.active {
          UpsertOnlyActive(deactivated, x, before);
        } else if old(AtMostOneActive()) {
          UpsertAtMostOne(deactivated, x, before);
        }
      }
    }
  }

  /** Writing x into a table without a clash keeps pk, begin and end unique and x stored once. */
  lemma {:induction false} UpsertKeeps(rows: seq<Exchange>, x: Exchange)
    requires forall i, j :: 0 <= i < j < |rows| ==>
      rows[i].pk != rows[j].pk && rows[i].begin != rows[j].begin && rows[i].end != rows[j].end
    requires !Clashes(rows, x)
    ensures var r := Upsert(rows, x);
      forall i, j :: 0 <= i < j < |r| ==> r[i].pk != r[j].pk && r[i].begin != r[j].begin && r[i].end != r[j].end
    ensures |Upsert(rows, x)| >= |rows|
    ensures var r := Upsert(rows, x);
      forall i :: 0 <= i < |r| && r[i] != x ==> r[i] in rows && r[i].pk != x.pk
    decreases |rows|
  {
    if rows != [] && rows[0].pk != x.pk {
      var tail := rows[1..];
      assert !Clashes(tail, x) by {
        forall i | 0 <= i < |tail| ensures !(tail[i].pk != x.pk && (tail[i].begin == x.begin || tail[i].end == x.end)) {
          assert tail[i] == rows[i + 1];
        }
      }
      UpsertKeeps(tail, x);
      var r := Upsert(rows, x);
      forall j | 1 <= j < |r| ensures r[0].pk != r[j].pk && r[0].begin != r[j].begin && r[0].end != r[j].end {
        var e := r[j];
        assert e == Upsert(tail, x)[j - 1];
        if e != x {
          var m :| 0 <= m < |tail| && tail[m] == e;
          assert e == rows[m + 1];
        }
      }
    } else if rows != [] {
      var r := Upsert(rows, x);
      forall i, j | 0 <= i < j < |r| ensures r[i].pk != r[j].pk && r[i].begin != r[j].begin && r[i].end != r[j].end {
        if i == 0 {
          assert r[j] == rows[j];
        }
      }
    }
  }

  /** After the hook and a clean write of an active x, x is the only active exchange. */
  lemma UpsertOnlyActive(deactivated: seq<Exchange>, x: Exchange, before: seq<Exchange>)
    requires x.active
    requires |deactivated| == |before|
    requires forall k :: 0 <= k < |deactivated| ==> deactivated[k] == Deactivate(before[k], x)
    requires forall i, j :: 0 <= i < j < |deactivated| ==>
      deactivated[i].pk != deactivated[j].pk && deactivated[i].begin != deactivated[j].begin && deactivated[i].end != deactivated[j].end
    requires !Clashes(deactivated, x)
    ensures var r := Upsert(deactivated, x);
      forall i :: 0 <= i < |r| ==> (r[i].active <==> r[i] == x)
  {
    var r := Upsert(deactivated, x);
    UpsertKeeps(deactivated, x);
    forall i | 0 <= i < |r| ensures r[i].active <==> r[i] == x {
      if r[i] != x {
        var m :| 0 <= m < |deactivated| && deactivated[m] == r[i];
        assert deactivated[m].begin != x.begin;
      }
    }
  }

  /** Writing an inactive x activates nothing, so at most one exchange stays active. */
  lemma UpsertAtMostOne(deactivated: seq<Exchange>, x: Exchange, before: seq<Exchange>)
    requires !x.active
    requires deactivated == before
    requires forall i, j :: 0 <= i < j < |before| ==> !(before[i].active && before[j].active)
    requires forall i, j :: 0 <= i < j < |deactivated| ==>
      deactivated[i].pk != deactivated[j].pk && deactivated[i].begin != deactivated[j].begin && deactivated[i].end != deactivated[j].end
    requires !Clashes(deactivated, x)
    ensures var r := Upsert(deactivated, x);
      forall i, j :: 0 <= i < j < |r| ==> !(r[i].active && r[j].active)
  {
    UpsertKeeps(deactivated, x);
  }

  // ---------------------------------------------------------------- merging persons

  /** The many-to-many links move_to carries over: department contacts, session assignees and organizers. */
  datatype Group = Contact(department: string) | Assignee(session: SessionPk) | Organizer(session: SessionPk)

  /** The unique constraint on an alternative address was violated. */
  datatype MailError = DuplicateAddress

  predicate EndsWithUu(email: string)
  {
    |email| >= 6 && email[|email| - 6..] == "@uu.nl"
  }

  /** The alternative addresses stored for one person. */
  function Owned(mails: map<string, PersonId>, owner: PersonId): set<string>
  {
    set a | a in mails && mails[a] == owner
  }

  /** last_login of the merged record: self's when both are set and self's is later, otherwise target's. */
  function LaterLogin(target: Option<int>, self: Option<int>): Option<int>
  {
    if target.Some? && self.Some? && self.value > target.value then self else target
  }

  /**
   * The merged other_affiliation: the set {target's, self's} joined by a space
   * and stripped. A set of two strings is iterated in an unspecified order,
   * which selfFirst stands for.
   */
  function MergedAffiliation(target: string, self: string, selfFirst: bool): string
  {
    var parts := if target == self then [target] else if selfFirst then [self, target] else [target, self];
    Text.StripSpace(Text.Join(" ", parts))
  }

  /** When one side has no other affiliation, the order of the set does not matter. */
  lemma MergedAffiliationOneEmpty(target: string, self: string, selfFirst: bool)
    requires target == "" || self == ""
    ensures MergedAffiliation(target, self, selfFirst) == Text.StripSpace(target + self)
  {
    if target != self {
      if target == "" {
        assert Text.Join(" ", [self, target]) == self + [' '];
        assert Text.Join(" ", [target, self]) == [' '] + self;
        Text.StripDroppedBack(self, ' ', Text.IsSpace);
        Text.StripDroppedFront(' ', self, Text.IsSpace);
        assert target + self == self;
      } else {
        assert Text.Join(" ", [self, target]) == [' '] + target;
        assert Text.Join(" ", [target, self]) == target + [' '];
        Text.StripDroppedBack(target, ' ', Text.IsSpace);
        Text.StripDroppedFront(' ', target, Text.IsSpace);
        assert target + self == target;
      }
    }
  }

  /** The departments of the merged record, as the merge intends them: both records' departments. */
  function MergedDepartments(target: set<string>, self: set<string>): (r: set<string>)
    ensures target <= r && self <= r
    ensures forall d :: d in r ==> d in target || d in self
  {
    target + self
  }

  /** The departments of the merged record as the code leaves them: the coroutine of aadd is never awaited. */
  function MergedDepartmentsAsWritten(target: set<string>, self: set<string>): set<string>
  {
    target
  }

  /** A department only the newer record is linked to is lost by the merge as written, and kept by the intended one. */
  lemma MergedDepartmentsLost(target: set<string>, self: set<string>, d: string)
    requires d in self && d !in target
    ensures d !in MergedDepartmentsAsWritten(target, self)
    ensures d in MergedDepartments(target, self)
  {
  }

  /** The record that survives a merge, with main email mainEmail. */
  function MergedPerson(target: Person, self: Person, mainEmail: string, selfFirst: bool): Person
  {
    target.(
      user := target.user.(
        email := mainEmail,
        firstName := self.user.firstName,
        lastName := self.user.lastName,
        lastLogin := LaterLogin(target.user.lastLogin, self.user.lastLogin),
        dateJoined := if self.user.dateJoined < target.user.dateJoined then self.user.dateJoined else target.user.dateJoined),
      prefixSurname := self.prefixSurname,
      departments := MergedDepartments(target.departments, self.departments),
      otherAffiliation := MergedAffiliation(target.otherAffiliation, self.otherAffiliation, selfFirst))
  }

  /**
   * The merged record keeps target's identity (pk, username, url, language),
   * takes the names of the newer record, the earlier date joined, the later
   * last login when both are set, and both records' departments.
   */
  lemma MergeRules(target: Person, self: Person, mainEmail: string, selfFirst: bool)
    ensures var m := MergedPerson(target, self, mainEmail, selfFirst);
      && m.pk == target.pk && m.user.username == target.user.username
      && m.url == target.url && m.language == target.language
      && NameParts(m) == NameParts(self)
      && m.user.dateJoined <= target.user.dateJoined && m.user.dateJoined <= self.user.dateJoined
      && (m.user.dateJoined == target.user.dateJoined || m.user.dateJoined == self.user.dateJoined)
      && (target.user.lastLogin.Some? && self.user.lastLogin.Some? ==>
            m.user.lastLogin.Some? && m.user.lastLogin.value >= target.user.lastLogin.value
            && m.user.lastLogin.value >= self.user.lastLogin.value
            && (m.user.lastLogin == target.user.lastLogin || m.user.lastLogin == self.user.lastLogin))
      && (target.user.lastLogin.None? || self.user.lastLogin.None? ==> m.user.lastLogin == target.user.lastLogin)
      && m.departments == target.departments + self.departments
  {
  }

  /** When the newer record has a kept name part, the merged record shows its full name. */
  lemma MergedFullName(target: Person, self: Person, mainEmail: string, selfFirst: bool)
    requires KeptParts(NameParts(self)) != []
    ensures FullName(MergedPerson(target, self, mainEmail, selfFirst)) == FullName(self)
  {
    var merged := MergedPerson(target, self, mainEmail, selfFirst);
    assert NameParts(merged) == NameParts(self);
    FullNameParts(self);
    FullNameParts(merged);
  }

  /**
   * The main address after a merge: self's when it is a @uu.nl address, some
   * collected @uu.nl address when there is one, and target's own otherwise.
   */
  predicate MainEmailRule(main: string, target: Person, self: Person, emails: set<string>)
  {
    && (EndsWithUu(self.user.email) ==> main == self.user.email)
    && ((exists a :: a in emails && EndsWithUu(a)) ==> main in emails && EndsWithUu(main))
    && ((forall a :: a in emails ==> !EndsWithUu(a)) ==> main == target.user.email)
  }

  /**
   * The loop over the collected addresses: the last @uu.nl address seen wins.
   * The set is iterated in an unspecified order, so any @uu.nl address may win.
   */
  method PickMainEmail(emails: set<string>, current: string) returns (main: string)
    ensures (exists a :: a in emails && EndsWithUu(a)) ==> main in emails && EndsWithUu(main)
    ensures (forall a :: a in emails ==> !EndsWithUu(a)) ==> main == current
  {
    main := current;
    var todo := emails;
    while todo != {}
      invariant todo <= emails
      invariant (exists a :: a in emails - todo && EndsWithUu(a)) ==> main in emails && EndsWithUu(main)
      invariant (forall a :: a in emails - todo ==> !EndsWithUu(a)) ==> main == current
      decreases |todo|
    {
      var e :| e in todo;
      if EndsWithUu(e) {
        main := e;
      }
      todo := todo - {e};
    }
  }

  /** The alternative addresses after the loop over self's addresses, as the merge intends: new ones move to target. */
  function SelfMailsRepointed(mails: map<string, PersonId>, self: PersonId, target: PersonId, collected: set<string>): map<string, PersonId>
  {
    map a | a in mails && !(mails[a] == self && a in collected) :: if mails[a] == self then target else mails[a]
  }

  /** The alternative addresses after the same loop as written: pm.person = target is never saved, only the deletions take effect. */
  function SelfMailsAsWritten(mails: map<string, PersonId>, self: PersonId, collected: set<string>): map<string, PersonId>
  {
    map a | a in mails && !(mails[a] == self && a in collected) :: mails[a]
  }

  /** The addresses with the extra ones added for target; a stored row is kept as it is. */
  function WithAddresses(mails: map<string, PersonId>, target: PersonId, extra: set<string>): map<string, PersonId>
  {
    map a | a in mails.Keys + extra :: if a in mails then mails[a] else target
  }

  /** The addresses collected before self's own: both main addresses and target's alternatives. */
  function Collected(persons: map<PersonId, Person>, mails: map<string, PersonId>, target: PersonId, self: PersonId): set<string>
    requires target in persons && self in persons
  {
    {persons[target].user.email, persons[self].user.email} + Owned(mails, target)
  }

  /** The alternative addresses after merging self into target with main address main. */
  function MergedMails(mails: map<string, PersonId>, target: PersonId, self: PersonId, collected: set<string>, main: string): map<string, PersonId>
  {
    WithAddresses(SelfMailsRepointed(mails, self, target, collected), target, (collected + Owned(mails, self)) - {main})
  }

  /**
   * After a merge, target holds every collected address except the main one,
   * and every address self had; self holds none; other owners keep theirs.
   */
  lemma MergedMailsMeaning(mails: map<string, PersonId>, target: PersonId, self: PersonId, collected: set<string>, main: string)
    requires self != target
    ensures var m := MergedMails(mails, target, self, collected, main);
      && (forall a :: a in collected + Owned(mails, self) && a != main ==> a in m && (m[a] == target || (a in mails && mails[a] == m[a])))
      && (forall a :: a in Owned(mails, self) && a !in collected ==> a in m && m[a] == target)
      && (forall a :: a in m ==> m[a] != self)
      && (forall a :: a in mails && mails[a] != self ==> a in m && m[a] == mails[a])
      && (forall a :: a in m ==> a in mails || a in collected + Owned(mails, self))
  {
  }

  /** Some collected address is held by a person other than the two being merged. */
  predicate HeldByOthers(mails: map<string, PersonId>, target: PersonId, self: PersonId, emails: set<string>)
  {
    exists a :: a in emails && a in mails && mails[a] != target && mails[a] != self
  }

  /** Storing a new address for target fails: some collected address other than the main one is held by someone else. */
  predicate MailClash(mails: map<string, PersonId>, target: PersonId, main: string, emails: set<string>)
  {
    exists a :: a in emails && a != main && a in mails && mails[a] != target
  }

  /**
   * The loop that gives target every collected address except the main one:
   * an existing row of target is kept, otherwise a new row is saved, which
   * violates the unique address when another person holds it. The enclosing
   * transaction then rolls everything back.
   */
  method AddTargetMails(mails: map<string, PersonId>, target: PersonId, main: string, emails: set<string>)
    returns (result: Result<map<string, PersonId>, MailError>)
    ensures result.Err? <==> MailClash(mails, target, main, emails)
    ensures result.Ok? ==> result.value == WithAddresses(mails, target, emails - {main})
  {
    var current := mails;
    var todo := emails;
    while todo != {}
      invariant todo <= emails
      invariant forall a :: a in current <==> a in mails || (a in emails - todo && a != main)
      invariant forall a :: a in current ==> current[a] == if a in mails then mails[a] else target
      invariant forall a :: a in emails - todo && a != main && a in mails ==> mails[a] == target
      decreases |todo|
    {
      var e :| e in todo;
      if main != e {
        if e in current && current[e] == target {
          // PersonMail.objects.get(person=target, address=e) finds the row
        } else if e in current {
          return Err(DuplicateAddress);
        } else {
          current := current[e := target];
        }
      }
      todo := todo - {e};
    }
    assert forall a :: a in current <==> a in WithAddresses(mails, target, emails - {main});
    result := Ok(current);
  }

  /** As written, an address only the newer record has stays with it, and re-creating it for target clashes. */
  lemma MoveMailsAsWrittenClash(mails: map<string, PersonId>, self: PersonId, target: PersonId, collected: set<string>, main: string, a: string)
    requires self != target
    requires a in mails && mails[a] == self && a !in collected && a != main
    ensures MailClash(SelfMailsAsWritten(mails, self, collected), target, main, collected + Owned(mails, self))
  {
    assert a in Owned(mails, self);
  }

  /** With the addresses handed over, storing target's addresses fails only when a third person holds one. */
  lemma MoveMailsRepointedClash(mails: map<string, PersonId>, self: PersonId, target: PersonId, collected: set<string>, main: string)
    ensures MailClash(SelfMailsRepointed(mails, self, target, collected), target, main, collected + Owned(mails, self)) ==>
      HeldByOthers(mails, target, self, collected + Owned(mails, self))
  {
  }

  /** Registrations of self are handed to target; the others are untouched. */
  function Relinked(registrations: seq<Registration>, self: PersonId, target: PersonId): (r: seq<Registration>)
    ensures |r| == |registrations|
  {
    seq(|registrations|, i requires 0 <= i < |registrations| =>
      if registrations[i].requestor == self then registrations[i].(requestor := target) else registrations[i])
  }

  /** After relinking no registration belongs to self, and target holds exactly self's and its own. */
  lemma RelinkedOwners(registrations: seq<Registration>, self: PersonId, target: PersonId)
    requires self != target
    ensures var r := Relinked(registrations, self, target);
      forall i :: 0 <= i < |r| ==>
        && r[i].requestor != self
        && (r[i].requestor == target <==> registrations[i].requestor == self || registrations[i].requestor == target)
        && r[i] == registrations[i].(requestor := r[i].requestor)
  {
  }

  /** Every link of self is given to target, and self's links go with the deleted record. */
  function Moved(members: map<Group, set<PersonId>>, self: PersonId, target: PersonId): map<Group, set<PersonId>>
  {
    map g | g in members :: if self in members[g] then members[g] - {self} + {target} else members[g]
  }

  lemma MovedLinks(members: map<Group, set<PersonId>>, self: PersonId, target: PersonId)
    requires self != target
    ensures var m := Moved(members, self, target);
      && m.Keys == members.Keys
      && forall g :: g in m ==>
        && self !in m[g]
        && (target in m[g] <==> self in members[g] || target in members[g])
        && forall p :: p != self && p != target ==> (p in m[g] <==> p in members[g])
  {
  }

  /** The stored persons, their alternative addresses (address to owner), registrations and links. */
  class Directory {
    var persons: map<PersonId, Person>
    var mails: map<string, PersonId>
    var registrations: seq<Registration>
    var members: map<Group, set<PersonId>>

    /** No stored alternative address equals its owner's main address. */
    predicate NoMainAlias()
      reads this
    {
      forall a :: a in mails && mails[a] in persons ==> persons[mails[a]].user.email != a
    }

    /**
     * PersonMail.save: an address equal to the owner's main address is not
     * stored; a new row whose address is taken violates the unique address.
     */
    method SaveMail(address: string, owner: PersonId, isNew: bool) returns (result: Result<(), MailError>)
      requires owner in persons
      requires !isNew ==> address in mails
      modifies this`mails
      ensures persons[owner].user.email == address ==> result.Ok? && mails == old(mails)
      ensures persons[owner].user.email != address && isNew && address in old(mails) ==> result.Err? && mails == old(mails)
      ensures persons[owner].user.email != address && !(isNew && address in old(mails)) ==>
        result.Ok? && mails == old(mails)[address := owner]
      ensures old(NoMainAlias()) ==> NoMainAlias()
    {
      if persons[owner].user.email == address {
        return Ok(());
      }
      if isNew && address in mails {
        return Err(DuplicateAddress);
      }
      mails := mails[address := owner];
      result := Ok(());
    }

    /** The loop over self's alternative addresses: an address not yet collected is collected and handed to target, any other is deleted. */
    method SortOutSelfMails(self: PersonId, target: PersonId, collected: set<string>)
      returns (emails: set<string>, kept: map<string, PersonId>)
      ensures emails == collected + Owned(mails, self)
      ensures kept == SelfMailsRepointed(mails, self, target, collected)
    {
      emails := collected;
      kept := mails;
      var todo := Owned(mails, self);
      while todo != {}
        invariant todo <= Owned(mails, self)
        invariant emails == collected + (Owned(mails, self) - todo)
        invariant forall a :: a in kept <==> a in mails && !(mails[a] == self && a in collected && a !in todo)
        invariant forall a :: a in kept ==> kept[a] == if mails[a] == self && a !in todo then target else mails[a]
        decreases |todo|
      {
        var a :| a in todo;
        if a !in emails {
          emails := emails + {a};
          kept := kept[a := target];
        } else {
          kept := kept - {a};
        }
        todo := todo - {a};
      }
      assert forall a :: a in kept <==> a in SelfMailsRepointed(mails, self, target, collected);
    }

    /**
     * move_to: merges the records selfPk and targetPk into the one with the
     * smaller pk, taking the newer record's names. As the whole method is one
     * transaction, a failure leaves every table as it was.
     */
    method MoveTo(selfPk: PersonId, targetPk: PersonId, selfAffiliationFirst: bool) returns (result: Result<PersonId, MailError>)
      requires selfPk in persons && targetPk in persons && selfPk != targetPk
      modifies this
      ensures result.Err? ==>
        persons == old(persons) && mails == old(mails) && registrations == old(registrations) && members == old(members)
      ensures var t := if selfPk < targetPk then selfPk else targetPk;
        var s := if selfPk < targetPk then targetPk else selfPk;
        var collected := Collected(old(persons), old(mails), t, s);
        && (result.Err? ==> HeldByOthers(old(mails), t, s, collected + Owned(old(mails), s)))
        && (result.Ok? ==>
          && result.value == t
          && t in persons
          && persons == (old(persons) - {s})[t := MergedPerson(old(persons)[t], old(persons)[s], persons[t].user.email, selfAffiliationFirst)]
          && MainEmailRule(persons[t].user.email, old(persons)[t], old(persons)[s], collected + Owned(old(mails), s))
          && mails == MergedMails(old(mails), t, s, collected, persons[t].user.email)
          && registrations == Relinked(old(registrations), s, t)
          && members == Moved(old(members), s, t))
    {
      var t, s := targetPk, selfPk;
      if targetPk > selfPk {
        // always move to the oldest record
        t, s := selfPk, targetPk;
      }
      var target, self := persons[t], persons[s];
      var collected := Collected(persons, mails, t, s);
      var emails, kept := SortOutSelfMails(s, t, collected);
      var main := PickMainEmail(emails, target.user.email);
      if EndsWithUu(self.user.email) {
        main := self.user.email;
      }
      MoveMailsRepointedClash(mails, s, t, collected, main);
      var added := AddTargetMails(kept, t, main, emails);
      if added.Err? {
        return Err(added.error);
      }
      // every address of self was handed over or deleted, so deleting self cascades to no address
      persons := (persons - {s})[t := MergedPerson(target, self, main, selfAffiliationFirst)];
      mails := added.value;
      registrations := Relinked(registrations, s, t);
      members := Moved(members, s, t);
      result := Ok(t);
    }
  }
}
