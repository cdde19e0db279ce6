/**
 * The component that shows one exchange session: the participant and
 * session counts, the description in the visitor's language, the languages
 * the session is given in and its contacts, recomputed by updateContent
 * whenever the input or the language changes.
 */
module ExchangeSessionView {
  import opened Domain
  import opened Wrappers
  import Text
  import Ordering
  import RegistrationService
  import Import

  /** Counts above this show as unlimited. */
  const UnlimitedAbove := 90

  /** The separator between the minimum and maximum participants as the file spells it: a space, 'Ã', a no-break space and a space. */
  const RangeSeparator := " \U{00C3}\U{00A0} "

  /** The participant count text. */
  function ParticipantCountText(participantsMin: int, participantsMax: int, unlimitedText: string): string
  {
    if participantsMin == participantsMax then Text.IntToString(participantsMin)
    else if participantsMax > UnlimitedAbove then unlimitedText
    else Text.IntToString(participantsMin) + RangeSeparator + Text.IntToString(participantsMax)
  }

  /** The session count text. */
  function SessionCountText(sessionCount: int, unlimitedText: string): string
  {
    if sessionCount > UnlimitedAbove then unlimitedText else Text.IntToString(sessionCount)
  }

  lemma IntToStringNoSpace(i: int)
    ensures ' ' !in Text.IntToString(i)
  {
    if i < 0 {
      assert Text.IntToString(i) == "-" + Text.NatToString(-i);
    }
  }

  /**
   * A range splits at its spaces into the two bounds and the separator's
   * middle; so equal range texts have equal bounds.
   */
  lemma ParticipantRange(participantsMin: int, participantsMax: int, unlimitedText: string)
    requires participantsMin != participantsMax && participantsMax <= UnlimitedAbove
    ensures Text.Split(ParticipantCountText(participantsMin, participantsMax, unlimitedText), ' ')
      == [Text.IntToString(participantsMin), "\U{00C3}\U{00A0}", Text.IntToString(participantsMax)]
  {
    var a, b := Text.IntToString(participantsMin), Text.IntToString(participantsMax);
    IntToStringNoSpace(participantsMin);
    IntToStringNoSpace(participantsMax);
    assert a + RangeSeparator + b == a + [' '] + "\U{00C3}\U{00A0}" + [' '] + b;
    Text.SplitThree(a, ' ', "\U{00C3}\U{00A0}", b);
  }

  /** Two sessions with non-negative bounds showing the same range have the same bounds. */
  lemma ParticipantRangeDetermines(min1: nat, max1: nat, min2: nat, max2: nat, unlimitedText: string)
    requires min1 != max1 && max1 <= UnlimitedAbove
    requires min2 != max2 && max2 <= UnlimitedAbove
    requires ParticipantCountText(min1, max1, unlimitedText) == ParticipantCountText(min2, max2, unlimitedText)
    ensures min1 == min2 && max1 == max2
  {
    ParticipantRange(min1, max1, unlimitedText);
    ParticipantRange(min2, max2, unlimitedText);
    Text.NatToStringInjective(min1, min2);
    Text.NatToStringInjective(max1, max2);
  }

  /** A session the import created with its defaults shows unlimited places and repeats. */
  lemma ImportedSessionUnlimited(exchange: ExchangeId, department: Import.DeptId, unlimitedText: string)
    ensures var s := Import.DefaultSession(exchange, department);
      && ParticipantCountText(s.participantsMin, s.participantsMax, unlimitedText) == unlimitedText
      && SessionCountText(s.sessionCount, unlimitedText) == unlimitedText
  {
  }

  /** Counts up to the limit show their digits; the text is unlimited exactly above it. */
  lemma SessionCountShown(sessionCount: nat, unlimitedText: string)
    requires '0' !in unlimitedText && '1' !in unlimitedText && '2' !in unlimitedText && '3' !in unlimitedText
      && '4' !in unlimitedText && '5' !in unlimitedText && '6' !in unlimitedText && '7' !in unlimitedText
      && '8' !in unlimitedText && '9' !in unlimitedText
    ensures SessionCountText(sessionCount, unlimitedText) == unlimitedText <==> sessionCount > UnlimitedAbove
    ensures sessionCount <= UnlimitedAbove ==> SessionCountText(sessionCount, unlimitedText) == Text.NatToString(sessionCount)
  {
    var digits := Text.NatToString(sessionCount);
    assert digits[0] in digits;
  }

  // ---------------------------------------------------------------- the description

  /** The six fields the description loop sets. */
  datatype Display = Display(title: string, subtitle: string, intro: string, program: string, date: string, location: string)

  function Describe(d: SessionDescription): Display
  {
    Display(d.title, d.subtitle, d.intro, d.program, d.date, d.location)
  }

  /**
   * The fields after the description loop: a description in the language
   * replaces all six, any other one only while the title is empty.
   */
  function Shown(descriptions: seq<SessionDescription>, language: Lang, start: Display): Display
    decreases |descriptions|
  {
    if descriptions == [] then start
    else
      var before := Shown(descriptions[..|descriptions| - 1], language, start);
      var d := descriptions[|descriptions| - 1];
      if d.language == language || before.title == "" then Describe(d) else before
  }

  /** The last description in the language is shown whole when its title is not empty. */
  lemma {:induction false} ShownLastInLanguage(descriptions: seq<SessionDescription>, language: Lang, start: Display, j: nat)
    requires j < |descriptions| && descriptions[j].language == language && descriptions[j].title != ""
    requires forall k :: j < k < |descriptions| ==> descriptions[k].language != language
    ensures Shown(descriptions, language, start) == Describe(descriptions[j])
    decreases |descriptions|
  {
    if j < |descriptions| - 1 {
      var init := descriptions[..|descriptions| - 1];
      assert init[j] == descriptions[j];
      forall k | j < k < |init| ensures init[k].language != language {
        assert init[k] == descriptions[k];
      }
      ShownLastInLanguage(init, language, start, j);
    }
  }

  /** Without a description in the language, a session with a title keeps the fields as they were. */
  lemma {:induction false} ShownNoneInLanguage(descriptions: seq<SessionDescription>, language: Lang, start: Display)
    requires forall k :: 0 <= k < |descriptions| ==> descriptions[k].language != language
    requires start.title != ""
    ensures Shown(descriptions, language, start) == start
    decreases |descriptions|
  {
    if descriptions != [] {
      var init := descriptions[..|descriptions| - 1];
      forall k | 0 <= k < |init| ensures init[k].language != language {
        assert init[k] == descriptions[k];
      }
      ShownNoneInLanguage(init, language, start);
    }
  }

  /** In Dutch, the title shown agrees with the title the session list sorts by. */
  lemma DutchTitleAgrees(session: RegistrationService.ExchangeSession, start: Display, j: nat)
    requires j < |session.descriptions| && session.descriptions[j].language == Nl && session.descriptions[j].title != ""
    requires forall k :: j < k < |session.descriptions| ==> session.descriptions[k].language != Nl
    ensures Shown(session.descriptions, Nl, start).title
      == RegistrationService.PreferDutch(RegistrationService.SessionEntries(session.descriptions))
  {
    ShownLastInLanguage(session.descriptions, Nl, start, j);
    var entries := RegistrationService.SessionEntries(session.descriptions);
    forall k | j < k < |entries| ensures entries[k].0 != Nl {
      assert entries[k] == (session.descriptions[k].language, session.descriptions[k].title);
    }
    assert entries[j] == (Nl, session.descriptions[j].title);
    RegistrationService.PreferDutchLastDutch(entries, j);
  }

  // ---------------------------------------------------------------- languages

  function Repeat<T>(x: T, n: nat): (r: seq<T>)
    ensures |r| == n
    decreases n
  {
    if n == 0 then [] else [x] + Repeat(x, n - 1)
  }

  lemma {:induction false} RepeatAt<T>(x: T, n: nat, k: nat)
    requires k < n
    ensures Repeat(x, n)[k] == x
    decreases n
  {
    if k > 0 {
      RepeatAt(x, n - 1, k - 1);
    }
  }

  function LanguageName(language: Lang, dutchText: string, englishText: string): string
  {
    if language == Nl then dutchText else englishText
  }

  function LanguageNames(languages: seq<Lang>, dutchText: string, englishText: string): (r: seq<string>)
    ensures |r| == |languages|
  {
    seq(|languages|, k requires 0 <= k < |languages| => LanguageName(languages[k], dutchText, englishText))
  }

  /** languages.sort().map(name).join(` ${and} `) */
  function LanguagesText(languages: seq<Lang>, dutchText: string, englishText: string, andText: string): string
  {
    Text.Join(" " + andText + " ", LanguageNames(Ordering.SortBy(languages, LangCode), dutchText, englishText))
  }

  /** "nl" sorts after "en". */
  lemma DutchAfterEnglish()
    ensures !Ordering.LessEq(LangCode(Nl), LangCode(En))
  {
    assert LangCode(Nl) == "nl" && LangCode(En) == "en";
    assert "nl"[0] == 'n' && "en"[0] == 'e';
  }

  /** How often the language occurs. */
  function Count(s: seq<Lang>, x: Lang): nat
    decreases |s|
  {
    if s == [] then 0 else (if s[0] == x then 1 else 0) + Count(s[1..], x)
  }

  /** The count is the multiplicity of the language in the multiset of the sequence. */
  lemma {:induction false} CountMultiplicity(s: seq<Lang>, x: Lang)
    ensures Count(s, x) == multiset(s)[x]
    decreases |s|
  {
    if s != [] {
      CountMultiplicity(s[1..], x);
      assert s == [s[0]] + s[1..];
    }
  }

  /** No Dutch language is directly followed by an English one. */
  predicate EnglishFirst(s: seq<Lang>)
    decreases |s|
  {
    |s| <= 1 || ((s[0] == Nl ==> s[1] == Nl) && EnglishFirst(s[1..]))
  }

  lemma {:induction false} SortedEnglishFirst(s: seq<Lang>)
    requires Ordering.SortedBy(s, LangCode)
    ensures EnglishFirst(s)
    decreases |s|
  {
    if |s| > 1 {
      if s[0] == Nl && s[1] == En {
        DutchAfterEnglish();
      }
      var rest := s[1..];
      forall i, j | 0 <= i < j < |rest| ensures Ordering.LessEq(LangCode(rest[i]), LangCode(rest[j])) {
        assert rest[i] == s[i + 1] && rest[j] == s[j + 1];
      }
      SortedEnglishFirst(rest);
    }
  }

  /** The runs of English then Dutch languages, one longer at the front. */
  lemma ConsRuns(x: Lang, rest: seq<Lang>, e: nat, n: nat)
    requires rest == Repeat(En, e) + Repeat(Nl, n)
    requires x == Nl ==> e == 0
    ensures x == En ==> [x] + rest == Repeat(En, e + 1) + Repeat(Nl, n)
    ensures x == Nl ==> [x] + rest == Repeat(En, 0) + Repeat(Nl, n + 1)
  {
    if x == En {
      assert [x] + rest == ([En] + Repeat(En, e)) + Repeat(Nl, n);
    }
  }

  lemma RunsEnglish(s: seq<Lang>, e: nat, n: nat)
    requires s != [] && s[0] == En
    requires s[1..] == Repeat(En, e) + Repeat(Nl, n)
    requires e == Count(s[1..], En) && n == Count(s[1..], Nl)
    ensures s == Repeat(En, Count(s, En)) + Repeat(Nl, Count(s, Nl))
  {
    assert s == [s[0]] + s[1..];
    ConsRuns(s[0], s[1..], e, n);
  }

  lemma RunsDutch(s: seq<Lang>, e: nat, n: nat)
    requires s != [] && s[0] == Nl && EnglishFirst(s)
    requires s[1..] == Repeat(En, e) + Repeat(Nl, n)
    requires e == Count(s[1..], En) && n == Count(s[1..], Nl)
    ensures s == Repeat(En, Count(s, En)) + Repeat(Nl, Count(s, Nl))
  {
    DutchFirstNoEnglish(s);
    assert Count(s, En) == Count(s[1..], En) && Count(s, Nl) == n + 1;
    ConsRuns(s[0], s[1..], e, n);
    assert s == [s[0]] + s[1..];
  }

  /** Once a Dutch language comes first, no English one follows. */
  lemma {:induction false} DutchFirstNoEnglish(s: seq<Lang>)
    requires s != [] && s[0] == Nl && EnglishFirst(s)
    ensures Count(s, En) == 0
    decreases |s|
  {
    if |s| > 1 {
      DutchFirstNoEnglish(s[1..]);
    }
  }

  /** With no Dutch before English, the languages are all the English ones, then all the Dutch ones. */
  lemma {:induction false} EnglishThenDutch(s: seq<Lang>)
    requires EnglishFirst(s)
    ensures s == Repeat(En, Count(s, En)) + Repeat(Nl, Count(s, Nl))
    decreases |s|
  {
    if s != [] {
      var rest := s[1..];
      EnglishThenDutch(rest);
      if s[0] == En {
        RunsEnglish(s, Count(rest, En), Count(rest, Nl));
      } else {
        RunsDutch(s, Count(rest, En), Count(rest, Nl));
      }
    }
  }

  /** Naming each language of a run of English then Dutch. */
  lemma NamesOfRuns(e: nat, n: nat, dutchText: string, englishText: string)
    ensures LanguageNames(Repeat(En, e) + Repeat(Nl, n), dutchText, englishText) == Repeat(englishText, e) + Repeat(dutchText, n)
  {
    var runs := Repeat(En, e) + Repeat(Nl, n);
    var names := LanguageNames(runs, dutchText, englishText);
    var expected := Repeat(englishText, e) + Repeat(dutchText, n);
    forall k | 0 <= k < |names| ensures names[k] == expected[k] {
      if k < e {
        RepeatAt(En, e, k);
        RepeatAt(englishText, e, k);
      } else {
        RepeatAt(Nl, n, k - e);
        RepeatAt(dutchText, n, k - e);
      }
    }
  }

  /** The languages line names English once per English description, then Dutch once per Dutch one. */
  lemma LanguagesListed(languages: seq<Lang>, dutchText: string, englishText: string, andText: string)
    ensures LanguagesText(languages, dutchText, englishText, andText)
      == Text.Join(" " + andText + " ", Repeat(englishText, multiset(languages)[En]) + Repeat(dutchText, multiset(languages)[Nl]))
  {
    var sorted := Ordering.SortBy(languages, LangCode);
    Ordering.SortBySorted(languages, LangCode);
    SortedEnglishFirst(sorted);
    EnglishThenDutch(sorted);
    CountMultiplicity(sorted, En);
    CountMultiplicity(sorted, Nl);
    NamesOfRuns(multiset(languages)[En], multiset(languages)[Nl], dutchText, englishText);
  }

  // ---------------------------------------------------------------- contacts

  datatype Contact = Contact(name: string, url: string)

  function ContactName(c: Contact): string
  {
    c.name
  }

  function Contacts(organizers: seq<RegistrationService.Organizer>): (r: seq<Contact>)
    ensures |r| == |organizers|
  {
    seq(|organizers|, k requires 0 <= k < |organizers| => Contact(organizers[k].fullName, organizers[k].url))
  }

  /** The contacts: one per organizer, with its name and url, ordered by name. */
  lemma ContactsOrdered(organizers: seq<RegistrationService.Organizer>)
    ensures Ordering.SortedBy(Ordering.SortBy(Contacts(organizers), ContactName), ContactName)
    ensures multiset(Ordering.SortBy(Contacts(organizers), ContactName)) == multiset(Contacts(organizers))
    ensures forall c :: c in Ordering.SortBy(Contacts(organizers), ContactName) <==>
      exists k :: 0 <= k < |organizers| && c == Contact(organizers[k].fullName, organizers[k].url)
  {
    var contacts := Contacts(organizers);
    Ordering.SortBySorted(contacts, ContactName);
    var sorted := Ordering.SortBy(contacts, ContactName);
    forall c ensures c in sorted <==> exists k :: 0 <= k < |organizers| && c == Contact(organizers[k].fullName, organizers[k].url) {
      assert c in sorted <==> c in multiset(sorted);
      assert c in contacts <==> c in multiset(contacts);
      if c in contacts {
        var k :| 0 <= k < |contacts| && contacts[k] == c;
        assert c == Contact(organizers[k].fullName, organizers[k].url);
      }
      if exists k :: 0 <= k < |organizers| && c == Contact(organizers[k].fullName, organizers[k].url) {
        var k :| 0 <= k < |organizers| && c == Contact(organizers[k].fullName, organizers[k].url);
        assert contacts[k] == c;
      }
    }
  }

  // ---------------------------------------------------------------- the component

  class Component {
    var session: Option<RegistrationService.ExchangeSession>
    var interested: bool
    var title: string
    var subtitle: string
    var intro: string
    var program: string
    var date: string
    var location: string
    var languages: string
    var participantCount: string
    var sessionCount: string
    var contact: seq<Contact>
    var unlimitedText: string
    var dutchText: string
    var englishText: string
    var andText: string

    /** The fields start empty, with the Dutch texts until the translations arrive. */
    constructor(session: Option<RegistrationService.ExchangeSession>, interested: bool)
      ensures this.session == session && this.interested == interested
      ensures Fields() == Display("", "", "", "", "", "")
      ensures languages == "" && participantCount == "" && sessionCount == "" && contact == []
      ensures unlimitedText == "" && dutchText == "Nederlands" && englishText == "Engels" && andText == "en"
    {
      this.session := session;
      this.interested := interested;
      title, subtitle, intro, program, date, location := "", "", "", "", "", "";
      languages, participantCount, sessionCount, contact := "", "", "", [];
      unlimitedText, dutchText, englishText, andText := "", "Nederlands", "Engels", "en";
    }

    function Fields(): Display
      reads this
    {
      Display(title, subtitle, intro, program, date, location)
    }

    /** clickInterested: the change it emits is the opposite of the flag; the flag itself stays. */
    method ClickInterested() returns (emitted: bool)
      ensures emitted != interested
    {
      emitted := !interested;
    }

    /**
     * updateContent: without a session nothing changes; otherwise the
     * counts, the description fields, the languages line and the contacts
     * are recomputed from the session, the language and the texts.
     */
    method UpdateContent(language: Lang)
      modifies this`participantCount, this`sessionCount, this`languages, this`contact
      modifies this`title, this`subtitle, this`intro, this`program, this`date, this`location
      ensures session.None? ==> unchanged(this)
      ensures session.Some? ==> Showing(session.value, language, old(Fields()))
    {
      if session.Some? {
        var s := session.value;
        ShowCounts(s);
        ShowContent(s, language);
        ShowContacts(s.organizers);
      }
    }

    /** What the component shows for the session in the language, the description loop starting from the given fields. */
    ghost predicate Showing(s: RegistrationService.ExchangeSession, language: Lang, before: Display)
      reads this
    {
      && participantCount == ParticipantCountText(s.participantsMin, s.participantsMax, unlimitedText)
      && sessionCount == SessionCountText(s.sessionCount, unlimitedText)
      && Fields() == Shown(s.descriptions, language, before.(title := s.title))
      && languages == LanguagesText(LanguagesOf(s.descriptions), dutchText, englishText, andText)
      && contact == Ordering.SortBy(Contacts(s.organizers), ContactName)
    }

    /** The title, the description loop and the languages line. */
    method ShowContent(s: RegistrationService.ExchangeSession, language: Lang)
      modifies this`languages
      modifies this`title, this`subtitle, this`intro, this`program, this`date, this`location
      ensures Fields() == Shown(s.descriptions, language, old(Fields()).(title := s.title))
      ensures languages == LanguagesText(LanguagesOf(s.descriptions), dutchText, englishText, andText)
    {
      title := s.title;
      ghost var start := Fields();
      assert start == old(Fields()).(title := s.title);
      var codes := ShowDescription(s.descriptions, language);
      ghost var shown := Fields();
      assert shown == Shown(s.descriptions, language, start);
      ShowLanguages(codes);
      assert Fields() == shown;
    }

    /** The languages line: the names of the languages met, English first, joined by the word for "and". */
    method ShowLanguages(codes: seq<Lang>)
      modifies this`languages
      ensures languages == LanguagesText(codes, dutchText, englishText, andText)
    {
      languages := LanguagesText(codes, dutchText, englishText, andText);
    }

    /** The contacts: one per organizer, sorted by name. */
    method ShowContacts(organizers: seq<RegistrationService.Organizer>)
      modifies this`contact
      ensures contact == Ordering.SortBy(Contacts(organizers), ContactName)
    {
      contact := Ordering.SortBy(Contacts(organizers), ContactName);
    }

    /** The participant count and the session count of the session. */
    method ShowCounts(s: RegistrationService.ExchangeSession)
      modifies this`participantCount, this`sessionCount
      ensures participantCount == ParticipantCountText(s.participantsMin, s.participantsMax, unlimitedText)
      ensures sessionCount == SessionCountText(s.sessionCount, unlimitedText)
    {
      if s.participantsMin == s.participantsMax {
        participantCount := Text.IntToString(s.participantsMin);
      } else if s.participantsMax > UnlimitedAbove {
        participantCount := unlimitedText;
      } else {
        participantCount := Text.IntToString(s.participantsMin) + RangeSeparator + Text.IntToString(s.participantsMax);
      }
      if s.sessionCount > UnlimitedAbove {
        sessionCount := unlimitedText;
      } else {
        sessionCount := Text.IntToString(s.sessionCount);
      }
    }

    /** The description loop: the six fields as Shown says, and the languages met, in order. */
    method ShowDescription(descriptions: seq<SessionDescription>, language: Lang) returns (codes: seq<Lang>)
      modifies this`title, this`subtitle, this`intro, this`program, this`date, this`location
      ensures Fields() == Shown(descriptions, language, old(Fields()))
      ensures codes == LanguagesOf(descriptions)
    {
      ghost var start := Fields();
      codes := [];
      for i := 0 to |descriptions|
        invariant Fields() == Shown(descriptions[..i], language, start)
        invariant codes == LanguagesOf(descriptions[..i])
      {
        var description := descriptions[i];
        assert descriptions[..i + 1][..i] == descriptions[..i];
        if description.language == language || title == "" {
          date := description.date;
          title := description.title;
          subtitle := description.subtitle;
          intro := description.intro;
          program := description.program;
          location := description.location;
        }
        codes := codes + [description.language];
      }
      assert descriptions[..|descriptions|] == descriptions;
    }
  }

  /** The languages of the descriptions, in order. */
  function LanguagesOf(descriptions: seq<SessionDescription>): (r: seq<Lang>)
    ensures |r| == |descriptions|
    decreases |descriptions|
  {
    if descriptions == [] then []
    else LanguagesOf(descriptions[..|descriptions| - 1]) + [descriptions[|descriptions| - 1].language]
  }
}
