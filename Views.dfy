/**
 * The registration API: whether a session counts as full, the text of the
 * registration summary, and the register endpoint, which creates or updates
 * the requestor and replaces their registrations for the active exchange by
 * one registration per submitted session priority.
 */
module Views {
  import opened Wrappers
  import opened Domain
  import Text
  import Models

  // ---------------------------------------------------------------- full

  /** A first choice for the session: a registration for it with priority 1. */
  predicate IsFirstChoice(r: Registration, session: SessionPk)
  {
    r.session == Some(session) && r.priority == 1
  }

  /** The number of first choices for a session. */
  function FirstChoices(registrations: seq<Registration>, session: SessionPk): (r: nat)
    ensures r <= |registrations|
    decreases |registrations|
  {
    if registrations == [] then 0
    else
      var init := registrations[..|registrations| - 1];
      FirstChoices(init, session) + if IsFirstChoice(registrations[|registrations| - 1], session) then 1 else 0
  }

  /**
   * The full flag of available_sessions: at least one first choice more than
   * the capacity, in case the first cannot make it.
   */
  function Full(s: Session, registrations: seq<Registration>): (r: bool)
    ensures r ==> |registrations| > Capacity(s)
  {
    FirstChoices(registrations, s.pk) >= s.participantsMax * s.sessionCount + 1
  }

  /** A session whose capacity is exactly taken by first choices is not yet full; one more makes it full. */
  lemma FullNeedsOneSpare(s: Session, registrations: seq<Registration>, r: Registration)
    requires FirstChoices(registrations, s.pk) == Capacity(s)
    ensures !Full(s, registrations)
    ensures Full(s, registrations + [r]) <==> IsFirstChoice(r, s.pk)
  {
    assert (registrations + [r])[..|registrations|] == registrations;
  }

  /** Registrations are only ever added on top: a full session stays full. */
  lemma {:induction false} FullStaysFull(s: Session, registrations: seq<Registration>, more: seq<Registration>)
    requires Full(s, registrations)
    ensures Full(s, registrations + more)
    decreases |more|
  {
    FirstChoicesGrow(registrations, more, s.pk);
  }

  lemma {:induction false} FirstChoicesGrow(registrations: seq<Registration>, more: seq<Registration>, session: SessionPk)
    ensures FirstChoices(registrations + more, session) >= FirstChoices(registrations, session)
    decreases |more|
  {
    if more != [] {
      var init := more[..|more| - 1];
      FirstChoicesGrow(registrations, init, session);
      assert (registrations + more)[..|registrations + more| - 1] == registrations + init;
    } else {
      assert registrations + more == registrations;
    }
  }

  // ---------------------------------------------------------------- format_data

  /** One submitted entry of sessionPriorities: the session pk (0 for "surprise me") and its priority. */
  datatype SessionPriority = SessionPriority(session: SessionPk, priority: int)

  /** The registration form as posted. */
  datatype RegisterForm = RegisterForm(
    email: string,
    firstName: string,
    prefix: string,
    lastName: string,
    language: Lang,
    department: string,
    notes: string,
    reason: string,
    sessionPriorities: seq<SessionPriority>)

  const SurpriseMe := "Verras mij"

  /** The choice a registration shows: "Verras mij" without a session, the session's titles otherwise. */
  function Choice(r: Registration, titles: SessionPk -> string): string
  {
    match r.session
    case None => SurpriseMe
    case Some(pk) => titles(pk)
  }

  function Choices(registrations: seq<Registration>, titles: SessionPk -> string): (r: seq<string>)
    ensures |r| == |registrations|
  {
    seq(|registrations|, i requires 0 <= i < |registrations| => Choice(registrations[i], titles))
  }

  /** The lines of the summary, including the empty first and last line of the template. */
  function DataLines(form: RegisterForm, registrations: seq<Registration>, person: Models.Person, titles: SessionPk -> string)
    : seq<string>
  {
    [ "",
      "Taal: " + LangCode(form.language),
      "Naam: " + person.user.firstName,
      "E-mail: " + person.user.email,
      "Afdeling: " + form.department,
      "Keuzes: " + Text.Join("; ", Choices(registrations, titles)),
      "Opmerkingen: " + form.notes,
      "Reden van deelname: " + form.reason,
      "" ]
  }

  /** format_data: the summary mailed to the team and to the requestor. */
  function FormatData(form: RegisterForm, registrations: seq<Registration>, person: Models.Person, titles: SessionPk -> string)
    : string
  {
    Text.Join("\n", DataLines(form, registrations, person, titles))
  }

  /**
   * When no field holds a line break, the summary splits back into its lines;
   * the choices line lists one choice per registration in order, "Verras mij"
   * exactly for those without a session (when no title reads "Verras mij").
   */
  lemma FormatDataLines(form: RegisterForm, registrations: seq<Registration>, person: Models.Person, titles: SessionPk -> string)
    requires '\n' !in person.user.firstName && '\n' !in person.user.email
    requires '\n' !in form.department && '\n' !in form.notes && '\n' !in form.reason
    requires forall k :: 0 <= k < |registrations| ==> '\n' !in Choice(registrations[k], titles)
    ensures Text.Split(FormatData(form, registrations, person, titles), '\n') == DataLines(form, registrations, person, titles)
    ensures |DataLines(form, registrations, person, titles)| == 9
    ensures (forall pk :: titles(pk) != SurpriseMe) ==>
      forall k :: 0 <= k < |registrations| ==> (Choices(registrations, titles)[k] == SurpriseMe <==> registrations[k].session.None?)
  {
    var choices := Choices(registrations, titles);
    Text.JoinWithout('\n', "; ", choices);
    var lines := DataLines(form, registrations, person, titles);
    assert "\n" == ['\n'];
    forall i | 0 <= i < |lines| ensures '\n' !in lines[i] {
    }
    Text.JoinSplit('\n', lines);
  }

  // ---------------------------------------------------------------- register

  /** The posted email is lower-cased before the person is looked up and before it is stored. */
  function RegisterKey(email: string): (r: string)
    ensures Text.NoUpper(r) && |r| == |email|
    ensures Text.Lower(r) == r
  {
    Text.LowerIdempotent(email);
    Text.Lower(email)
  }

  /**
   * Addresses that differ only in the case of their letters find the same
   * person, and registering with a stored address looks up that address.
   */
  lemma RegisterKeyCaseInsensitive(a: string, b: string)
    requires |a| == |b|
    requires forall i :: 0 <= i < |a| ==> a[i] == b[i] || Text.LowerChar(a[i]) == b[i] || a[i] == Text.LowerChar(b[i])
    ensures RegisterKey(a) == RegisterKey(b)
    ensures RegisterKey(RegisterKey(a)) == RegisterKey(a)
  {
    forall i | 0 <= i < |a| ensures RegisterKey(a)[i] == RegisterKey(b)[i] {
    }
  }

  /** The person the form's fields are written to. */
  function Updated(person: Models.Person, form: RegisterForm): (r: Models.Person)
  {
    person.(
      otherAffiliation := form.department,
      prefixSurname := form.prefix,
      language := form.language,
      user := person.user.(firstName := form.firstName, lastName := form.lastName))
  }

  /** The user created for an unknown address: the generated username and the lower-cased address. */
  function NewUser(username: string, form: RegisterForm, now: int): Models.User
  {
    Models.User(username, RegisterKey(form.email), form.firstName, form.lastName, now, None)
  }

  /** A person created for an unknown address, holding the new user. */
  function NewPerson(pk: PersonId, username: string, form: RegisterForm, now: int): Models.Person
  {
    Models.Person(pk, NewUser(username, form, now), "", "", form.language, {}, "")
  }

  /** Person.user is one-to-one: no two persons share a user. */
  ghost predicate OnePersonPerUser(persons: map<PersonId, Models.Person>)
  {
    forall a, b :: a in persons && b in persons && persons[a].user.username == persons[b].user.username ==> a == b
  }

  /** Some stored person holds the user with this username. */
  predicate HasUser(persons: map<PersonId, Models.Person>, username: string)
  {
    exists q :: q in persons && persons[q].user.username == username
  }

  /**
   * The post_save hook on User (add_person): a user without a person gets a bare one. The hook
   * leaves the person's language unset; hookLanguage stands for that column.
   */
  function AddPersonHook(persons: map<PersonId, Models.Person>, pk: PersonId, user: Models.User, hookLanguage: Lang)
    : (r: map<PersonId, Models.Person>)
    ensures HasUser(r, user.username)
    ensures HasUser(persons, user.username) ==> r == persons
  {
    if HasUser(persons, user.username) then persons
    else
      var r := persons[pk := Models.Person(pk, user, "", "", hookLanguage, {}, "")];
      assert r[pk].user.username == user.username;
      r
  }

  /**
   * The unknown-address branch of register as written: saving the user runs the hook, which stores
   * a person for it (hookPk), and then a second Person for the same user is saved (secondPk), which
   * the one-to-one user column refuses.
   */
  function NewAddressAsWritten(persons: map<PersonId, Models.Person>, hookPk: PersonId, secondPk: PersonId,
                               username: string, form: RegisterForm, now: int, hookLanguage: Lang)
    : (res: (map<PersonId, Models.Person>, Result<PersonId, RegisterError>))
  {
    var afterHook := AddPersonHook(persons, hookPk, NewUser(username, form, now), hookLanguage);
    if HasUser(afterHook, username) then (afterHook, Err(UserTaken))
    else (afterHook[secondPk := Updated(NewPerson(secondPk, username, form, now), form)], Ok(secondPk))
  }

  /**
   * As written, every request from an unknown address fails on the second person, and the hook's
   * bare person stays behind; the registrations are never reached.
   */
  lemma NewAddressAsWrittenFails(persons: map<PersonId, Models.Person>, hookPk: PersonId, secondPk: PersonId,
                                 username: string, form: RegisterForm, now: int, hookLanguage: Lang)
    requires !HasUser(persons, username)
    ensures var (after, result) := NewAddressAsWritten(persons, hookPk, secondPk, username, form, now, hookLanguage);
      && result == Err(UserTaken)
      && after == persons[hookPk := Models.Person(hookPk, NewUser(username, form, now), "", "", hookLanguage, {}, "")]
  {
  }

  /**
   * As intended (and as RegistrationDesk.Register does, newPk being the hook's person): the hook's
   * person is updated with the form, so the new user has exactly one person and users stay one-to-one.
   */
  lemma NewAddressOnePerson(persons: map<PersonId, Models.Person>, newPk: PersonId, username: string, form: RegisterForm, now: int)
    requires OnePersonPerUser(persons) && !HasUser(persons, username) && newPk !in persons
    ensures var after := persons[newPk := Updated(NewPerson(newPk, username, form, now), form)];
      && OnePersonPerUser(after)
      && forall q :: q in after && after[q].user.username == username <==> q == newPk
  {
  }

  /** A submitted entry names a session that exists, or no session (pk 0). */
  predicate Known(sp: SessionPriority, sessions: set<SessionPk>)
  {
    sp.session == 0 || sp.session in sessions
  }

  /** The position of the first entry naming a session that does not exist. */
  function FirstUnknown(sps: seq<SessionPriority>, sessions: set<SessionPk>): (r: Option<nat>)
    ensures r.None? <==> forall k :: 0 <= k < |sps| ==> Known(sps[k], sessions)
    ensures r.Some? ==> r.value < |sps| && !Known(sps[r.value], sessions) && forall k :: 0 <= k < r.value ==> Known(sps[k], sessions)
    decreases |sps|
  {
    if sps == [] then None
    else if !Known(sps[0], sessions) then Some(0)
    else
      var rest := FirstUnknown(sps[1..], sessions);
      assert forall k :: 1 <= k < |sps| ==> sps[k] == sps[1..][k - 1];
      if rest.None? then None else Some(rest.value + 1)
  }

  /** The first unknown entry is the one after a run of known entries. */
  lemma FirstUnknownAt(sps: seq<SessionPriority>, sessions: set<SessionPk>, i: nat)
    requires i < |sps| && !Known(sps[i], sessions)
    requires forall k :: 0 <= k < i ==> Known(sps[k], sessions)
    ensures FirstUnknown(sps, sessions) == Some(i)
  {
    var stop := FirstUnknown(sps, sessions);
    assert stop.Some?;
  }

  /** The registration made for one submitted entry. */
  function Submission(sp: SessionPriority, form: RegisterForm, requestor: PersonId, exchange: ExchangeId, now: int): Registration
  {
    Registration(requestor, exchange, if sp.session != 0 then Some(sp.session) else None, sp.priority, now, form.notes, form.reason)
  }

  /** One registration per submitted entry, in order, copying its priority; pk 0 gives no session. */
  function Submitted(form: RegisterForm, requestor: PersonId, exchange: ExchangeId, now: int): (r: seq<Registration>)
    ensures |r| == |form.sessionPriorities|
    ensures forall k :: 0 <= k < |r| ==>
      && r[k].requestor == requestor && r[k].exchange == exchange
      && r[k].priority == form.sessionPriorities[k].priority
      && (r[k].session.None? <==> form.sessionPriorities[k].session == 0)
      && (r[k].session.Some? ==> r[k].session.value == form.sessionPriorities[k].session)
  {
    var sps := form.sessionPriorities;
    seq(|sps|, i requires 0 <= i < |sps| => Submission(sps[i], form, requestor, exchange, now))
  }

  /** A registration of the requestor for the exchange. */
  predicate Owned(r: Registration, requestor: PersonId, exchange: ExchangeId)
  {
    r.requestor == requestor && r.exchange == exchange
  }

  /** The registrations that are the requestor's for the exchange, in order. */
  function Of(rows: seq<Registration>, requestor: PersonId, exchange: ExchangeId): (r: seq<Registration>)
    ensures forall k :: 0 <= k < |r| ==> Owned(r[k], requestor, exchange)
    decreases |rows|
  {
    if rows == [] then []
    else (if Owned(rows[0], requestor, exchange) then [rows[0]] else []) + Of(rows[1..], requestor, exchange)
  }

  /** The delete of register: the registrations that are not the requestor's for the exchange, in order. */
  function Without(rows: seq<Registration>, requestor: PersonId, exchange: ExchangeId): (r: seq<Registration>)
    ensures forall k :: 0 <= k < |r| ==> !Owned(r[k], requestor, exchange)
    ensures forall x :: x in r <==> x in rows && !Owned(x, requestor, exchange)
    decreases |rows|
  {
    if rows == [] then []
    else (if Owned(rows[0], requestor, exchange) then [] else [rows[0]]) + Without(rows[1..], requestor, exchange)
  }

  lemma {:induction false} OfAppend(a: seq<Registration>, b: seq<Registration>, requestor: PersonId, exchange: ExchangeId)
    ensures Of(a + b, requestor, exchange) == Of(a, requestor, exchange) + Of(b, requestor, exchange)
    decreases |a|
  {
    if a == [] {
      assert a + b == b;
    } else {
      assert (a + b)[1..] == a[1..] + b;
      OfAppend(a[1..], b, requestor, exchange);
    }
  }

  lemma {:induction false} WithoutAppend(a: seq<Registration>, b: seq<Registration>, requestor: PersonId, exchange: ExchangeId)
    ensures Without(a + b, requestor, exchange) == Without(a, requestor, exchange) + Without(b, requestor, exchange)
    decreases |a|
  {
    if a == [] {
      assert a + b == b;
    } else {
      assert (a + b)[1..] == a[1..] + b;
      WithoutAppend(a[1..], b, requestor, exchange);
    }
  }

  lemma {:induction false} OfNone(rows: seq<Registration>, requestor: PersonId, exchange: ExchangeId)
    requires forall k :: 0 <= k < |rows| ==> !Owned(rows[k], requestor, exchange)
    ensures Of(rows, requestor, exchange) == []
    decreases |rows|
  {
    if rows != [] {
      OfNone(rows[1..], requestor, exchange);
    }
  }

  lemma {:induction false} OfAll(rows: seq<Registration>, requestor: PersonId, exchange: ExchangeId)
    requires forall k :: 0 <= k < |rows| ==> Owned(rows[k], requestor, exchange)
    ensures Of(rows, requestor, exchange) == rows && Without(rows, requestor, exchange) == []
    decreases |rows|
  {
    if rows != [] {
      OfAll(rows[1..], requestor, exchange);
      assert rows == [rows[0]] + rows[1..];
    }
  }

  lemma {:induction false} OfOthers(rows: seq<Registration>, requestor: PersonId, exchange: ExchangeId, other: PersonId, otherExchange: ExchangeId)
    requires (other, otherExchange) != (requestor, exchange)
    ensures Of(Without(rows, requestor, exchange), other, otherExchange) == Of(rows, other, otherExchange)
    decreases |rows|
  {
    if rows != [] {
      OfOthers(rows[1..], requestor, exchange, other, otherExchange);
      var head := if Owned(rows[0], requestor, exchange) then [] else [rows[0]];
      OfAppend(head, Without(rows[1..], requestor, exchange), other, otherExchange);
      if head == [] {
        assert Of([], other, otherExchange) == [];
      } else {
        assert head[1..] == [];
      }
    }
  }

  /**
   * Re-registering replaces: afterwards the requestor's registrations for
   * the exchange are exactly the submitted ones, everybody else's and those
   * for other exchanges are as before, and registering the same form again
   * gives the same table.
   */
  lemma Replaced(rows: seq<Registration>, form: RegisterForm, requestor: PersonId, exchange: ExchangeId, now: int,
                 other: PersonId, otherExchange: ExchangeId)
    ensures var after := Without(rows, requestor, exchange) + Submitted(form, requestor, exchange, now);
      && Of(after, requestor, exchange) == Submitted(form, requestor, exchange, now)
      && ((other, otherExchange) != (requestor, exchange) ==> Of(after, other, otherExchange) == Of(rows, other, otherExchange))
      && Without(after, requestor, exchange) + Submitted(form, requestor, exchange, now) == after
  {
    var kept, added := Without(rows, requestor, exchange), Submitted(form, requestor, exchange, now);
    OfAppend(kept, added, requestor, exchange);
    OfNone(kept, requestor, exchange);
    OfAll(added, requestor, exchange);
    assert [] + added == added;
    if (other, otherExchange) != (requestor, exchange) {
      OfAppend(kept, added, other, otherExchange);
      OfOthers(rows, requestor, exchange, other, otherExchange);
      OfNone(added, other, otherExchange);
      assert Of(rows, other, otherExchange) + [] == Of(rows, other, otherExchange);
    }
    WithoutAppend(kept, added, requestor, exchange);
    WithoutOfFree(kept, requestor, exchange);
    assert kept + [] == kept;
  }

  lemma {:induction false} WithoutOfFree(rows: seq<Registration>, requestor: PersonId, exchange: ExchangeId)
    requires forall k :: 0 <= k < |rows| ==> !Owned(rows[k], requestor, exchange)
    ensures Without(rows, requestor, exchange) == rows
    decreases |rows|
  {
    if rows != [] {
      WithoutOfFree(rows[1..], requestor, exchange);
      assert rows == [rows[0]] + rows[1..];
    }
  }

  /** Why register fails; UserTaken is the one-to-one user clash of the code as written. */
  datatype RegisterError = NoActiveExchange | SessionDoesNotExist(pk: SessionPk) | UserTaken

  /** The database tables register reads and writes. */
  class RegistrationDesk {
    var persons: map<PersonId, Models.Person>
    var registrations: seq<Registration>
    /** The pks of the stored exchange sessions. */
    var sessions: set<SessionPk>
    /** The active exchange, if there is one. */
    var activeExchange: Option<ExchangeId>

    constructor(persons: map<PersonId, Models.Person>, registrations: seq<Registration>, sessions: set<SessionPk>, activeExchange: Option<ExchangeId>)
      ensures this.persons == persons && this.registrations == registrations
      ensures this.sessions == sessions && this.activeExchange == activeExchange
    {
      this.persons := persons;
      this.registrations := registrations;
      this.sessions := sessions;
      this.activeExchange := activeExchange;
    }

    /**
     * register. lookup stands for Person.get_by_email, username for
     * unique_username and newPk for the pk of the person the User post_save
     * hook creates, which is reused here as intended (see NewAddressAsWritten);
     * now is the time stamp of the request. Every save is committed on its
     * own: an unknown session ends the request after the person was saved,
     * their old registrations for the exchange were deleted and the entries
     * before the unknown one were registered.
     */
    method Register(form: RegisterForm, lookup: string -> Option<PersonId>, newPk: PersonId, username: string, now: int)
      returns (result: Result<PersonId, RegisterError>)
      requires lookup(RegisterKey(form.email)).Some? ==> lookup(RegisterKey(form.email)).value in persons
      requires lookup(RegisterKey(form.email)).None? ==> newPk !in persons
      modifies this
      ensures sessions == old(sessions) && activeExchange == old(activeExchange)
      ensures var found := lookup(RegisterKey(form.email));
        var p := if found.Some? then found.value else newPk;
        persons == old(persons)[p := Updated(if found.Some? then old(persons)[p] else NewPerson(newPk, username, form, now), form)]
      ensures activeExchange.None? ==> result == Err(NoActiveExchange) && registrations == old(registrations)
      ensures activeExchange.Some? ==>
        var found := lookup(RegisterKey(form.email));
        var p := if found.Some? then found.value else newPk;
        var wanted := Submitted(form, p, activeExchange.value, now);
        var stop := FirstUnknown(form.sessionPriorities, sessions);
        && (stop.None? ==> result == Ok(p) && registrations == Without(old(registrations), p, activeExchange.value) + wanted)
        && (stop.Some? ==>
              && result == Err(SessionDoesNotExist(form.sessionPriorities[stop.value].session))
              && registrations == Without(old(registrations), p, activeExchange.value) + wanted[..stop.value])
    {
      var email := RegisterKey(form.email);
      var found := lookup(email);
      var p: PersonId;
      var person: Models.Person;
      if found.Some? {
        p := found.value;
        person := persons[p];
      } else {
        p := newPk;
        person := NewPerson(newPk, username, form, now);
      }
      persons := persons[p := Updated(person, form)];

      if activeExchange.None? {
        return Err(NoActiveExchange);
      }
      var exchange := activeExchange.value;
      registrations := Without(registrations, p, exchange);
      ghost var kept := registrations;
      ghost var wanted := Submitted(form, p, exchange, now);

      var sps := form.sessionPriorities;
      for i := 0 to |sps|
        invariant registrations == kept + wanted[..i]
        invariant forall k :: 0 <= k < i ==> Known(sps[k], sessions)
        invariant persons == old(persons)[p := Updated(person, form)]
        invariant sessions == old(sessions) && activeExchange == old(activeExchange)
      {
        var sp := sps[i];
        if sp.session != 0 && sp.session !in sessions {
          FirstUnknownAt(sps, sessions, i);
          return Err(SessionDoesNotExist(sp.session));
        }
        var registration := Submission(sp, form, p, exchange, now);
        assert wanted[..i + 1] == wanted[..i] + [registration];
        registrations := registrations + [registration];
      }
      assert wanted[..|sps|] == wanted;
      return Ok(p);
    }
  }
}
