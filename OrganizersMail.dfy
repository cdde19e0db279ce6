/**
 * The organizers mail command: for every session of the active exchange it
 * picks the overview template in the organizers' language, fills in the
 * session name, the organizers' given names, the number and list of assigned
 * participants and the team, and addresses the mail to the organizers (or to
 * the department when there are none).
 */
module OrganizersMail {
  import opened Wrappers
  import opened Domain
  import Text
  import Models
  import MailMerge

  /** An "overview_assigned" mail template of one language. */
  datatype MailTemplate = MailTemplate(language: Lang, subject: string, text: string)

  /** items[0] on an empty list, and a template that is not stored. */
  datatype MailError = IndexError | DoesNotExist

  const DefaultLanguage: Lang := Nl

  /** The word before the last item of a listing: CONJUNCT. */
  function ConjunctWord(language: Lang): string
  {
    match language
    case En => " and "
    case Nl => " en "
  }

  /** conjunct: "a, b and c"; a single item is returned as it is; an empty list fails. */
  function Conjunct(language: Lang, items: seq<string>): (r: Result<string, MailError>)
    ensures r.Err? <==> items == []
  {
    if |items| < 2 then
      if |items| == 0 then Err(IndexError) else Ok(items[0])
    else
      Ok(Text.Join(", ", items[..|items| - 1]) + ConjunctWord(language) + items[|items| - 1])
  }

  /**
   * The listing differs from the plain ", " join of the items only in the last
   * separator, which is the language's conjunction; one item is itself.
   */
  lemma ConjunctJoin(language: Lang, items: seq<string>)
    requires |items| >= 1
    ensures |items| == 1 ==> Conjunct(language, items) == Ok(Text.Join(", ", items))
    ensures |items| >= 2 ==>
      var init, last := items[..|items| - 1], items[|items| - 1];
      && Text.Join(", ", items) == Text.Join(", ", init) + ", " + last
      && Conjunct(language, items) == Ok(Text.Join(", ", init) + ConjunctWord(language) + last)
  {
    if |items| >= 2 {
      var init, last := items[..|items| - 1], items[|items| - 1];
      assert items == init + [last];
      Text.JoinAppend(", ", init, last);
    }
  }

  /** Two names are joined by the conjunction alone. */
  lemma ConjunctTwo(language: Lang, a: string, b: string)
    ensures Conjunct(language, [a, b]) == Ok(a + ConjunctWord(language) + b)
  {
    assert [a, b][..1] == [a];
  }

  /** format_mail_person: "Full Name <email>". */
  function FormatMailPerson(p: Models.Person): string
  {
    Models.FullName(p) + " <" + p.user.email + ">"
  }

  /** Name and address can be read back from the formatted person when neither holds '<'. */
  lemma FormatMailPersonSplit(p: Models.Person)
    requires '<' !in Models.FullName(p) && '<' !in p.user.email
    ensures Text.Split(FormatMailPerson(p), '<') == [Models.FullName(p) + " ", p.user.email + ">"]
  {
    var name, address := Models.FullName(p) + " ", p.user.email + ">";
    assert FormatMailPerson(p) == name + ['<'] + address;
    Text.SplitCons(name, '<', address);
  }

  function MailPersons(persons: seq<Models.Person>): (r: seq<string>)
    ensures |r| == |persons|
  {
    seq(|persons|, i requires 0 <= i < |persons| => FormatMailPerson(persons[i]))
  }

  /**
   * The receivers column: the formatted organizers joined by ", ", or, since
   * an empty join is falsy, the department's address when there are no organizers.
   */
  function Receivers(organizers: seq<Models.Person>, departmentEmail: string): (r: string)
    ensures organizers == [] ==> r == departmentEmail
    ensures organizers != [] ==> r == Text.Join(", ", MailPersons(organizers)) && r != ""
  {
    var joined := Text.Join(", ", MailPersons(organizers));
    if organizers != [] then
      assert MailPersons(organizers)[0] != "";
      Text.JoinNonEmpty(", ", MailPersons(organizers), 0);
      if joined != "" then joined else departmentEmail
    else
      if joined != "" then joined else departmentEmail
  }

  /** The language loop of get_mail: "en" as soon as one organizer is English-speaking, "nl" otherwise. */
  method MailLanguage(organizers: seq<Models.Person>) returns (language: Lang)
    ensures language == En <==> exists k :: 0 <= k < |organizers| && organizers[k].language == En
  {
    language := DefaultLanguage;
    for i := 0 to |organizers|
      invariant language == Nl
      invariant forall k :: 0 <= k < i ==> organizers[k].language != En
    {
      if organizers[i].language == En {
        language := En;
        break;
      }
    }
  }

  /** The template get_mail returns: the organizers' language, else the default language, else none. */
  function SelectedMail(templates: map<Lang, MailTemplate>, organizers: seq<Models.Person>): Result<MailTemplate, MailError>
  {
    var language := if exists k :: 0 <= k < |organizers| && organizers[k].language == En then En else Nl;
    if language in templates then Ok(templates[language])
    else if DefaultLanguage in templates then Ok(templates[DefaultLanguage])
    else Err(DoesNotExist)
  }

  /** get_mail; templates holds the stored "overview_assigned" mails by language. */
  method GetMail(templates: map<Lang, MailTemplate>, organizers: seq<Models.Person>) returns (result: Result<MailTemplate, MailError>)
    ensures result == SelectedMail(templates, organizers)
  {
    var language := MailLanguage(organizers);
    if language in templates {
      return Ok(templates[language]);
    }
    if DefaultLanguage in templates {
      return Ok(templates[DefaultLanguage]);
    }
    return Err(DoesNotExist);
  }

  /**
   * The English template is chosen exactly when an organizer is English-speaking
   * and it is stored; otherwise the Dutch one, when stored.
   */
  lemma SelectedMailLanguage(templates: map<Lang, MailTemplate>, organizers: seq<Models.Person>)
    ensures SelectedMail(templates, organizers) == Ok(templates[En]) <== En in templates && exists k :: 0 <= k < |organizers| && organizers[k].language == En
    ensures (forall k :: 0 <= k < |organizers| ==> organizers[k].language != En) || En !in templates ==>
      SelectedMail(templates, organizers) == if Nl in templates then Ok(templates[Nl]) else Err(DoesNotExist)
  {
  }

  const EnglishMark := " (communicatie in het Engels)"

  /** One entry of the assignment list as intended: the person, marked when they need English and marking is on. */
  function AssignedLine(p: Models.Person, markEnglish: bool): string
  {
    " - " + FormatMailPerson(p) + Mark(p, markEnglish)
  }

  /** The English mark of a person, when marking is on. */
  function Mark(p: Models.Person, markEnglish: bool): string
  {
    if markEnglish && p.language == En then EnglishMark else ""
  }

  /** One entry as written: the conditional expression takes the whole concatenation, so an unmarked person gives "". */
  function AssignedLineAsWritten(p: Models.Person, markEnglish: bool): string
  {
    if markEnglish && p.language == En then " - " + FormatMailPerson(p) + EnglishMark else ""
  }

  function AssignedLines(placed: seq<Models.Person>, markEnglish: bool): (r: seq<string>)
    ensures |r| == |placed|
  {
    seq(|placed|, i requires 0 <= i < |placed| => AssignedLine(placed[i], markEnglish))
  }

  function AssignedLinesAsWritten(placed: seq<Models.Person>, markEnglish: bool): (r: seq<string>)
    ensures |r| == |placed|
  {
    seq(|placed|, i requires 0 <= i < |placed| => AssignedLineAsWritten(placed[i], markEnglish))
  }

  /** One more person adds their entry, as intended and as written, at the end. */
  lemma AssignedLinesStep(placed: seq<Models.Person>, i: nat, markEnglish: bool)
    requires i < |placed|
    ensures AssignedLines(placed[..i + 1], markEnglish) == AssignedLines(placed[..i], markEnglish) + [AssignedLine(placed[i], markEnglish)]
    ensures AssignedLinesAsWritten(placed[..i + 1], markEnglish) ==
      AssignedLinesAsWritten(placed[..i], markEnglish) + [AssignedLineAsWritten(placed[i], markEnglish)]
  {
  }

  /** format_assigned as intended: one entry per assigned person, joined by newlines. */
  method FormatAssigned(placed: seq<Models.Person>, markEnglish: bool) returns (r: string)
    ensures r == Text.Join("\n", AssignedLines(placed, markEnglish))
  {
    var output: seq<string> := [];
    for i := 0 to |placed|
      invariant output == AssignedLines(placed[..i], markEnglish)
    {
      AssignedLinesStep(placed, i, markEnglish);
      output := output + [AssignedLine(placed[i], markEnglish)];
    }
    assert placed[..|placed|] == placed;
    r := Text.Join("\n", output);
  }

  /** format_assigned as written. */
  method FormatAssignedAsWritten(placed: seq<Models.Person>, markEnglish: bool) returns (r: string)
    ensures r == Text.Join("\n", AssignedLinesAsWritten(placed, markEnglish))
  {
    var output: seq<string> := [];
    for i := 0 to |placed|
      invariant output == AssignedLinesAsWritten(placed[..i], markEnglish)
    {
      AssignedLinesStep(placed, i, markEnglish);
      output := output + [AssignedLineAsWritten(placed[i], markEnglish)];
    }
    assert placed[..|placed|] == placed;
    r := Text.Join("\n", output);
  }

  /** As written, a participant who is not marked disappears from the list; as intended, they are listed. */
  lemma AssignedAsWrittenDropsUnmarked(p: Models.Person, markEnglish: bool)
    requires !(markEnglish && p.language == En)
    ensures Text.Join("\n", AssignedLinesAsWritten([p], markEnglish)) == ""
    ensures Text.Join("\n", AssignedLines([p], markEnglish)) == " - " + FormatMailPerson(p)
  {
    assert AssignedLinesAsWritten([p], markEnglish) == [""];
    assert AssignedLines([p], markEnglish) == [" - " + FormatMailPerson(p) + ""];
  }

  predicate EndsWith(s: string, suffix: string)
  {
    |suffix| <= |s| && s[|s| - |suffix|..] == suffix
  }

  /** An entry carries the English mark exactly when marking is on and the person is English-speaking. */
  lemma AssignedLineMarked(p: Models.Person, markEnglish: bool)
    ensures EndsWith(AssignedLine(p, markEnglish), EnglishMark) <==> markEnglish && p.language == En
  {
    var line := AssignedLine(p, markEnglish);
    if !(markEnglish && p.language == En) {
      assert line[|line| - 1] == '>';
      assert EnglishMark[|EnglishMark| - 1] == ')';
    }
  }

  /** The list splits back into one entry per assigned person when no formatted person holds a newline. */
  lemma AssignedListSplits(placed: seq<Models.Person>, markEnglish: bool)
    requires |placed| >= 1
    requires forall k :: 0 <= k < |placed| ==> '\n' !in FormatMailPerson(placed[k])
    ensures Text.Split(Text.Join("\n", AssignedLines(placed, markEnglish)), '\n') == AssignedLines(placed, markEnglish)
  {
    var lines := AssignedLines(placed, markEnglish);
    forall k | 0 <= k < |lines| ensures '\n' !in lines[k] {
      LineWithoutNewline(placed[k], markEnglish);
    }
    Text.JoinSplit('\n', lines);
  }

  /** An entry holds a newline only where the formatted person does. */
  lemma LineWithoutNewline(p: Models.Person, markEnglish: bool)
    requires '\n' !in FormatMailPerson(p)
    ensures '\n' !in AssignedLine(p, markEnglish)
  {
    var name, mark := FormatMailPerson(p), Mark(p, markEnglish);
    assert '\n' !in " - " && '\n' !in mark;
    assert forall c :: c in " - " + name + mark <==> c in " - " || c in name || c in mark;
  }

  function GivenNames(organizers: seq<Models.Person>): (r: seq<string>)
    ensures |r| == |organizers|
  {
    seq(|organizers|, i requires 0 <= i < |organizers| => Text.StripSpace(organizers[i].user.firstName))
  }

  /** The organizers placeholder: their stripped given names as a listing, or "organisator" without organizers. */
  function OrganizerNames(language: Lang, organizers: seq<Models.Person>): (r: string)
    ensures organizers == [] ==> r == "organisator"
    ensures |organizers| == 1 ==> r == Text.StripSpace(organizers[0].user.firstName)
  {
    if |organizers| > 0 then Conjunct(language, GivenNames(organizers)).value else "organisator"
  }

  /** The data of prepare_mail, in its key order. */
  function MailData(mail: MailTemplate, choice: string, organizers: seq<Models.Person>, placed: seq<Models.Person>, team: string)
    : seq<(string, string)>
  {
    [ ("choice", choice),
      ("organizers", OrganizerNames(mail.language, organizers)),
      ("count", Text.NatToString(|placed|)),
      ("choice_assignments", Text.Join("\n", AssignedLines(placed, mail.language == Nl))),
      ("team", team) ]
  }

  /**
   * prepare_mail: the subject and text of the template filled with the data;
   * choice is the session's name in the mail's language.
   */
  method PrepareMail(mail: MailTemplate, choice: string, organizers: seq<Models.Person>, placed: seq<Models.Person>, team: string)
    returns (subject: string, content: string)
    ensures subject == MailMerge.Filled(mail.subject, MailData(mail, choice, organizers, placed, team))
    ensures content == MailMerge.Filled(mail.text, MailData(mail, choice, organizers, placed, team))
  {
    var organizersNames: string;
    if |organizers| > 0 {
      var names := Conjunct(mail.language, GivenNames(organizers));
      organizersNames := names.value;
    } else {
      organizersNames := "organisator";
    }
    var choiceAssignments := FormatAssigned(placed, mail.language == Nl);
    var data := [
      ("choice", choice),
      ("organizers", organizersNames),
      ("count", Text.NatToString(|placed|)),
      ("choice_assignments", choiceAssignments),
      ("team", team)];
    assert data == MailData(mail, choice, organizers, placed, team);
    subject := MailMerge.FillPlaceholders(mail.subject, data);
    content := MailMerge.FillPlaceholders(mail.text, data);
  }

  /**
   * The data of prepare_mail: count is the decimal number of assigned people,
   * distinct counts give distinct strings, and an entry carries the English
   * mark exactly when the mail is Dutch and the person is English-speaking.
   */
  lemma MailDataMeaning(mail: MailTemplate, choice: string, organizers: seq<Models.Person>, placed: seq<Models.Person>, team: string,
                        other: seq<Models.Person>)
    ensures var data := MailData(mail, choice, organizers, placed, team);
      && |data| == 5
      && data[2].1 == Text.NatToString(|placed|)
      && (data[2].1 == MailData(mail, choice, organizers, other, team)[2].1 ==> |placed| == |other|)
      && (organizers == [] ==> data[1].1 == "organisator")
      && forall k :: 0 <= k < |placed| ==>
        (EndsWith(AssignedLines(placed, mail.language == Nl)[k], EnglishMark) <==> mail.language == Nl && placed[k].language == En)
  {
    if Text.NatToString(|placed|) == Text.NatToString(|other|) {
      Text.NatToStringInjective(|placed|, |other|);
    }
    forall k | 0 <= k < |placed|
      ensures EndsWith(AssignedLines(placed, mail.language == Nl)[k], EnglishMark) <==> mail.language == Nl && placed[k].language == En
    {
      AssignedLineMarked(placed[k], mail.language == Nl);
    }
  }

  /** get_team_str: the full names of the team's members, in the given order (by first name), joined by ", ". */
  function TeamString(members: seq<Models.Person>): (r: string)
    ensures members == [] ==> r == ""
    ensures |members| == 1 ==> r == Models.FullName(members[0])
    ensures |members| >= 2 ==> r == Text.Join(", ", FullNames(members[..|members| - 1])) + ", " + Models.FullName(members[|members| - 1])
  {
    var names := FullNames(members);
    if |members| >= 2 then
      assert names == FullNames(members[..|members| - 1]) + [Models.FullName(members[|members| - 1])];
      Text.JoinAppend(", ", FullNames(members[..|members| - 1]), Models.FullName(members[|members| - 1]));
      Text.Join(", ", names)
    else
      Text.Join(", ", names)
  }

  function FullNames(persons: seq<Models.Person>): (r: seq<string>)
    ensures |r| == |persons|
  {
    seq(|persons|, i requires 0 <= i < |persons| => Models.FullName(persons[i]))
  }

  /** What mail_info reads of one session; nameByLang is the session's name in a language. */
  datatype SessionMail = SessionMail(
    organizers: seq<Models.Person>,
    placed: seq<Models.Person>,
    nameByLang: Lang -> string,
    departmentEmail: string)

  datatype MailRow = MailRow(receivers: string, subject: string, content: string)

  /** The row of one session, given its template. */
  function RowFor(mail: MailTemplate, session: SessionMail, team: string): MailRow
  {
    var data := MailData(mail, session.nameByLang(mail.language), session.organizers, session.placed, team);
    MailRow(Receivers(session.organizers, session.departmentEmail), MailMerge.Filled(mail.subject, data), MailMerge.Filled(mail.text, data))
  }

  /** The row of one session: its receivers and the filled template. */
  method SessionRow(mail: MailTemplate, session: SessionMail, team: string) returns (row: MailRow)
    ensures row == RowFor(mail, session, team)
  {
    var subject, content := PrepareMail(mail, session.nameByLang(mail.language), session.organizers, session.placed, team);
    row := MailRow(Receivers(session.organizers, session.departmentEmail), subject, content);
  }

  /** The row builder of one team. */
  function RowOf(team: string): (MailTemplate, SessionMail) -> MailRow
  {
    (mail, session) => RowFor(mail, session, team)
  }

  /**
   * The rows of mail_info for the given sessions, in order, each built by row
   * from the session and its template; the first session without a template
   * aborts with its error.
   */
  function MailRows(templates: map<Lang, MailTemplate>, sessions: seq<SessionMail>, row: (MailTemplate, SessionMail) -> MailRow)
    : Result<seq<MailRow>, MailError>
    decreases |sessions|
  {
    if sessions == [] then Ok([])
    else
      var init := MailRows(templates, sessions[..|sessions| - 1], row);
      var last := sessions[|sessions| - 1];
      var mail := SelectedMail(templates, last.organizers);
      if init.Err? then init
      else if mail.Err? then Err(mail.error)
      else Ok(init.value + [row(mail.value, last)])
  }

  /** There are rows exactly when every session has a template, and then row k is session k's. */
  lemma {:induction false} MailRowsMeaning(templates: map<Lang, MailTemplate>, sessions: seq<SessionMail>, row: (MailTemplate, SessionMail) -> MailRow)
    ensures MailRows(templates, sessions, row).Ok? <==> forall k :: 0 <= k < |sessions| ==> SelectedMail(templates, sessions[k].organizers).Ok?
    ensures MailRows(templates, sessions, row).Ok? ==>
      var rows := MailRows(templates, sessions, row).value;
      |rows| == |sessions| && forall k :: 0 <= k < |sessions| ==> rows[k] == row(SelectedMail(templates, sessions[k].organizers).value, sessions[k])
    decreases |sessions|
  {
    if sessions != [] {
      var init := sessions[..|sessions| - 1];
      MailRowsMeaning(templates, init, row);
      assert forall k :: 0 <= k < |init| ==> init[k] == sessions[k];
    }
  }

  /** Once a prefix of the sessions fails, the whole list fails with the same error. */
  lemma {:induction false} MailRowsErrKept(templates: map<Lang, MailTemplate>, sessions: seq<SessionMail>, n: nat, row: (MailTemplate, SessionMail) -> MailRow)
    requires n <= |sessions| && MailRows(templates, sessions[..n], row).Err?
    ensures MailRows(templates, sessions, row) == MailRows(templates, sessions[..n], row)
    decreases |sessions| - n
  {
    if n < |sessions| {
      assert sessions[..n + 1][..n] == sessions[..n];
      MailRowsErrKept(templates, sessions, n + 1, row);
    } else {
      assert sessions[..n] == sessions;
    }
  }

  /** One more session: its template's error, or the rows so far followed by its row. */
  lemma MailRowsStep(templates: map<Lang, MailTemplate>, sessions: seq<SessionMail>, i: nat, team: string, output: seq<MailRow>)
    requires i < |sessions| && MailRows(templates, sessions[..i], RowOf(team)) == Ok(output)
    ensures SelectedMail(templates, sessions[i].organizers).Err? ==>
      MailRows(templates, sessions[..i + 1], RowOf(team)) == Err(SelectedMail(templates, sessions[i].organizers).error)
    ensures SelectedMail(templates, sessions[i].organizers).Ok? ==>
      MailRows(templates, sessions[..i + 1], RowOf(team)) == Ok(output + [RowFor(SelectedMail(templates, sessions[i].organizers).value, sessions[i], team)])
  {
    assert sessions[..i + 1][..i] == sessions[..i];
  }

  /**
   * mail_info: one row per session, in order; organizers, assigned people and
   * team members arrive sorted by first name. A missing template aborts the command.
   */
  method MailInfo(templates: map<Lang, MailTemplate>, sessions: seq<SessionMail>, teamMembers: seq<Models.Person>)
    returns (result: Result<seq<MailRow>, MailError>)
    ensures result == MailRows(templates, sessions, RowOf(TeamString(teamMembers)))
  {
    var team := TeamString(teamMembers);
    var output: seq<MailRow> := [];
    for i := 0 to |sessions|
      invariant MailRows(templates, sessions[..i], RowOf(team)) == Ok(output)
    {
      var session := sessions[i];
      var mail := GetMail(templates, session.organizers);
      MailRowsStep(templates, sessions, i, team, output);
      if mail.Err? {
        MailRowsErrKept(templates, sessions, i + 1, RowOf(team));
        return Err(mail.error);
      }
      var row := SessionRow(mail.value, session, team);
      output := output + [row];
    }
    assert sessions[..|sessions|] == sessions;
    result := Ok(output);
  }
}
