/**
 * The registration service of the frontend: the sessions on offer with their
 * display titles, sorted; the flags of the sessions the visitor is
 * interested in; and the interested sessions with the priorities the visitor
 * gave them, kept in [MIN_PRIORITY, MAX_PRIORITY].
 */
module RegistrationService {
  import opened Wrappers
  import opened Domain
  import Text
  import Ordering

  const MinPriority := 1
  const MaxPriority := 4

  /** An organizer as available_sessions sends it. */
  datatype Organizer = Organizer(fullName: string, url: string)

  datatype DepartmentDescription = DepartmentDescription(name: string, text: string, language: Lang)

  datatype Department = Department(slug: string, descriptions: seq<DepartmentDescription>, title: string)

  /** A session as available_sessions sends it, with the title and sort title the service adds. */
  datatype ExchangeSession = ExchangeSession(
    pk: nat,
    descriptions: seq<SessionDescription>,
    participantsMin: int,
    participantsMax: int,
    sessionCount: int,
    organizers: seq<Organizer>,
    full: bool,
    title: string,
    sortTitle: string)

  datatype SessionPriority = SessionPriority(session: ExchangeSession, priority: int)

  // ---------------------------------------------------------------- titles

  /**
   * The title a description loop settles on: a Dutch description always
   * overwrites it, any other one only while it is still empty.
   */
  function PreferDutch(entries: seq<(Lang, string)>): string
    decreases |entries|
  {
    if entries == [] then ""
    else
      var title := PreferDutch(entries[..|entries| - 1]);
      var last := entries[|entries| - 1];
      if last.0 == Nl || title == "" then last.1 else title
  }

  /** The last Dutch description decides when its title is not empty. */
  lemma {:induction false} PreferDutchLastDutch(entries: seq<(Lang, string)>, j: nat)
    requires j < |entries| && entries[j].0 == Nl && entries[j].1 != ""
    requires forall k :: j < k < |entries| ==> entries[k].0 != Nl
    ensures PreferDutch(entries) == entries[j].1
    decreases |entries|
  {
    if j < |entries| - 1 {
      var init := entries[..|entries| - 1];
      assert init[j] == entries[j];
      forall k | j < k < |init| ensures init[k].0 != Nl {
        assert init[k] == entries[k];
      }
      PreferDutchLastDutch(init, j);
    }
  }

  /** Without Dutch descriptions, the first non-empty title wins, and the title is empty only when all are. */
  lemma {:induction false} PreferDutchNoDutch(entries: seq<(Lang, string)>)
    requires forall k :: 0 <= k < |entries| ==> entries[k].0 != Nl
    ensures PreferDutch(entries) == "" <==> forall k :: 0 <= k < |entries| ==> entries[k].1 == ""
    ensures PreferDutch(entries) != "" ==>
      exists j :: 0 <= j < |entries| && PreferDutch(entries) == entries[j].1 && forall k :: 0 <= k < j ==> entries[k].1 == ""
    decreases |entries|
  {
    if entries != [] {
      var init := entries[..|entries| - 1];
      forall k | 0 <= k < |init| ensures init[k].0 != Nl {
        assert init[k] == entries[k];
      }
      PreferDutchNoDutch(init);
      assert forall k :: 0 <= k < |init| ==> init[k] == entries[k];
      var title := PreferDutch(init);
      if title != "" {
        var j :| 0 <= j < |init| && title == init[j].1 && forall k :: 0 <= k < j ==> init[k].1 == "";
        assert entries[j] == init[j];
      } else {
        assert forall k :: 0 <= k < |init| ==> entries[k].1 == "";
      }
    }
  }

  function SessionEntries(descriptions: seq<SessionDescription>): (r: seq<(Lang, string)>)
    ensures |r| == |descriptions|
  {
    seq(|descriptions|, i requires 0 <= i < |descriptions| => (descriptions[i].language, descriptions[i].title))
  }

  function DepartmentEntries(descriptions: seq<DepartmentDescription>): (r: seq<(Lang, string)>)
    ensures |r| == |descriptions|
  {
    seq(|descriptions|, i requires 0 <= i < |descriptions| => (descriptions[i].language, descriptions[i].name))
  }

  /** sessionTitle: the title of the session's descriptions, Dutch preferred. */
  method SessionTitle(session: ExchangeSession) returns (title: string)
    ensures title == PreferDutch(SessionEntries(session.descriptions))
  {
    var entries := SessionEntries(session.descriptions);
    title := "";
    for i := 0 to |session.descriptions|
      invariant title == PreferDutch(entries[..i])
    {
      var description := session.descriptions[i];
      assert entries[..i + 1][..i] == entries[..i];
      if description.language == Nl || title == "" {
        title := description.title;
      }
    }
    assert entries[..|entries|] == entries;
  }

  /** departmentTitle: the name of the department's descriptions, Dutch preferred. */
  method DepartmentTitle(department: Department) returns (title: string)
    ensures title == PreferDutch(DepartmentEntries(department.descriptions))
  {
    var entries := DepartmentEntries(department.descriptions);
    title := "";
    for i := 0 to |department.descriptions|
      invariant title == PreferDutch(entries[..i])
    {
      var description := department.descriptions[i];
      assert entries[..i + 1][..i] == entries[..i];
      if description.language == Nl || title == "" {
        title := description.name;
      }
    }
    assert entries[..|entries|] == entries;
  }

  /** departments(): every department with its title. */
  method Departments(fetched: seq<Department>) returns (r: seq<Department>)
    ensures |r| == |fetched|
    ensures forall i :: 0 <= i < |r| ==> r[i] == fetched[i].(title := PreferDutch(DepartmentEntries(fetched[i].descriptions)))
  {
    r := [];
    for i := 0 to |fetched|
      invariant |r| == i
      invariant forall k :: 0 <= k < i ==> r[k] == fetched[k].(title := PreferDutch(DepartmentEntries(fetched[k].descriptions)))
    {
      var title := DepartmentTitle(fetched[i]);
      r := r + [fetched[i].(title := title)];
    }
  }

  // ---------------------------------------------------------------- session order

  predicate IsLetter(c: char)
  {
    'A' <= c <= 'Z' || 'a' <= c <= 'z'
  }

  /** title.replace(/[^A-Za-z]/g, ''): the letters of the title, in order. */
  function LettersOnly(s: string): (r: string)
    ensures forall i :: 0 <= i < |r| ==> IsLetter(r[i])
    ensures |r| <= |s|
    ensures (forall i :: 0 <= i < |s| ==> IsLetter(s[i])) ==> r == s
    decreases |s|
  {
    if s == [] then []
    else
      var rest := LettersOnly(s[1..]);
      if IsLetter(s[0]) then [s[0]] + rest else rest
  }

  /** Removing the non-letters twice is removing them once. */
  lemma LettersOnlyIdempotent(s: string)
    ensures LettersOnly(LettersOnly(s)) == LettersOnly(s)
  {
  }

  function WithTitle(session: ExchangeSession): ExchangeSession
  {
    var title := PreferDutch(SessionEntries(session.descriptions));
    session.(title := title, sortTitle := LettersOnly(title))
  }

  function SortTitle(session: ExchangeSession): string
  {
    session.sortTitle
  }

  function Titled(fetched: seq<ExchangeSession>): (r: seq<ExchangeSession>)
    ensures |r| == |fetched|
  {
    seq(|fetched|, i requires 0 <= i < |fetched| => WithTitle(fetched[i]))
  }

  /** The sessions as the service offers them: titled, and sorted by their letters-only titles. */
  lemma OfferedSessions(fetched: seq<ExchangeSession>)
    ensures Ordering.SortedBy(Ordering.SortBy(Titled(fetched), SortTitle), SortTitle)
    ensures multiset(Ordering.SortBy(Titled(fetched), SortTitle)) == multiset(Titled(fetched))
    ensures forall s :: s in Ordering.SortBy(Titled(fetched), SortTitle) ==>
      s.title == PreferDutch(SessionEntries(s.descriptions)) && s.sortTitle == LettersOnly(s.title)
  {
    Ordering.SortBySorted(Titled(fetched), SortTitle);
    forall s | s in Ordering.SortBy(Titled(fetched), SortTitle)
      ensures s.title == PreferDutch(SessionEntries(s.descriptions)) && s.sortTitle == LettersOnly(s.title)
    {
      assert s in multiset(Titled(fetched));
      var i :| 0 <= i < |Titled(fetched)| && Titled(fetched)[i] == s;
    }
  }

  // ---------------------------------------------------------------- priorities

  /** Math.max(MIN_PRIORITY, Math.min(MAX_PRIORITY, x)) */
  function Clamp(x: int): (r: int)
    ensures MinPriority <= r <= MaxPriority
    ensures MinPriority <= x <= MaxPriority ==> r == x
    ensures x < MinPriority ==> r == MinPriority
    ensures x > MaxPriority ==> r == MaxPriority
  {
    if x > MaxPriority then MaxPriority else if x < MinPriority then MinPriority else x
  }

  /** m is in s and no element of s is smaller. */
  predicate IsLeast(m: nat, s: set<nat>)
  {
    m in s && forall x :: x in s ==> m <= x
  }

  /** The smallest element of a non-empty set of keys. */
  function Least(s: set<nat>): (m: nat)
    requires s != {}
    ensures IsLeast(m, s)
  {
    LeastExists(s);
    var m :| IsLeast(m, s);
    m
  }

  lemma {:induction false} LeastExists(s: set<nat>)
    requires s != {}
    ensures exists m :: IsLeast(m, s)
    decreases s
  {
    var y :| y in s;
    var others := s - {y};
    if others == {} {
      assert s == {y};
      assert IsLeast(y, s);
    } else {
      LeastExists(others);
      var m :| IsLeast(m, others);
      var least := if y < m then y else m;
      assert IsLeast(least, s) by {
        forall x | x in s ensures least <= x {
          if x != y {
            assert x in others;
          }
        }
      }
    }
  }

  /** Object.entries order for integer keys: ascending. */
  function KeysAscending(s: set<nat>): (r: seq<nat>)
    ensures Text.StrictlyAscending(r)
    ensures forall x :: x in r <==> x in s
    decreases |s|
  {
    if s == {} then []
    else
      var m := Least(s);
      var rest := KeysAscending(s - {m});
      Text.AscendingCons(m, rest);
      [m] + rest
  }

  /** Array.find on the sessions: the first with the pk. */
  function FindSession(sessions: seq<ExchangeSession>, pk: nat): (r: Option<ExchangeSession>)
    ensures r.Some? <==> exists i :: 0 <= i < |sessions| && sessions[i].pk == pk
    ensures r.Some? ==> r.value in sessions && r.value.pk == pk
    decreases |sessions|
  {
    if sessions == [] then None
    else if sessions[0].pk == pk then Some(sessions[0])
    else
      var r := FindSession(sessions[1..], pk);
      assert forall i :: 1 <= i < |sessions| ==> sessions[i] == sessions[1..][i - 1];
      r
  }

  /** The priority of the first listed item with the pk, if any. */
  function FindPriority(items: seq<SessionPriority>, pk: nat): (r: Option<int>)
    ensures r.Some? <==> exists i :: 0 <= i < |items| && items[i].session.pk == pk
    decreases |items|
  {
    if items == [] then None
    else if items[0].session.pk == pk then Some(items[0].priority)
    else
      var r := FindPriority(items[1..], pk);
      assert forall i :: 1 <= i < |items| ==> items[i] == items[1..][i - 1];
      r
  }

  /** The priority an interested pk gets: its listed priority, or the number of keys, clamped. */
  function NewPriority(pk: nat, interested: map<nat, bool>, previous: seq<SessionPriority>): int
  {
    Clamp(match FindPriority(previous, pk) case Some(p) => p case None => |interested|)
  }

  /** The item of one key: its first offered session with its priority, when the key is flagged and offered. */
  function ItemFor(pk: nat, interested: map<nat, bool>, previous: seq<SessionPriority>, sessions: seq<ExchangeSession>)
    : (r: seq<SessionPriority>)
    requires pk in interested
    ensures |r| <= 1
    ensures |r| == 1 <==> interested[pk] && FindSession(sessions, pk).Some?
    ensures |r| == 1 ==>
      && r[0].session.pk == pk
      && r[0].priority == NewPriority(pk, interested, previous)
      && FindSession(sessions, pk) == Some(r[0].session)
  {
    var found := FindSession(sessions, pk);
    if interested[pk] && found.Some? then [SessionPriority(found.value, NewPriority(pk, interested, previous))] else []
  }

  /** The item list update computes from the interested pks, in order of keys. */
  function Priorities(keys: seq<nat>, interested: map<nat, bool>, previous: seq<SessionPriority>, sessions: seq<ExchangeSession>)
    : seq<SessionPriority>
    requires forall k :: k in keys ==> k in interested
    decreases |keys|
  {
    if keys == [] then []
    else
      ItemFor(keys[0], interested, previous, sessions) + Priorities(keys[1..], interested, previous, sessions)
  }

  /** Each item of update's list: the first offered session of its pk, with its priority in [1, 4]. */
  lemma {:induction false} PrioritiesItems(keys: seq<nat>, interested: map<nat, bool>, previous: seq<SessionPriority>, sessions: seq<ExchangeSession>)
    requires forall k :: k in keys ==> k in interested
    ensures forall i :: 0 <= i < |Priorities(keys, interested, previous, sessions)| ==>
      var item := Priorities(keys, interested, previous, sessions)[i];
      && item.session.pk in keys
      && item.priority == NewPriority(item.session.pk, interested, previous)
      && MinPriority <= item.priority <= MaxPriority
      && FindSession(sessions, item.session.pk) == Some(item.session)
    decreases |keys|
  {
    if keys != [] {
      var rest := keys[1..];
      PrioritiesItems(rest, interested, previous, sessions);
      var head := ItemFor(keys[0], interested, previous, sessions);
      var tail := Priorities(rest, interested, previous, sessions);
      var r := head + tail;
      forall i | 0 <= i < |r|
        ensures r[i].session.pk in keys
        ensures r[i].priority == NewPriority(r[i].session.pk, interested, previous)
        ensures FindSession(sessions, r[i].session.pk) == Some(r[i].session)
      {
        if i < |head| {
          assert r[i] == head[0];
        } else {
          assert r[i] == tail[i - |head|];
        }
      }
    }
  }

  /** Some item of the list is for the pk. */
  predicate Lists(items: seq<SessionPriority>, pk: nat)
  {
    exists i :: 0 <= i < |items| && items[i].session.pk == pk
  }

  lemma ListsAppend(a: seq<SessionPriority>, b: seq<SessionPriority>, pk: nat)
    ensures Lists(a + b, pk) <==> Lists(a, pk) || Lists(b, pk)
  {
    if Lists(a, pk) {
      var i :| 0 <= i < |a| && a[i].session.pk == pk;
      assert (a + b)[i] == a[i];
    }
    if Lists(b, pk) {
      var i :| 0 <= i < |b| && b[i].session.pk == pk;
      assert (a + b)[|a| + i] == b[i];
    }
    if Lists(a + b, pk) {
      var i :| 0 <= i < |a + b| && (a + b)[i].session.pk == pk;
      if i < |a| {
        assert a[i] == (a + b)[i];
      } else {
        assert b[i - |a|] == (a + b)[i];
      }
    }
  }

  /** update's list holds exactly the interested pks that have an offered session. */
  lemma {:induction false} PrioritiesPks(keys: seq<nat>, interested: map<nat, bool>, previous: seq<SessionPriority>, sessions: seq<ExchangeSession>, pk: nat)
    requires forall k :: k in keys ==> k in interested
    ensures Lists(Priorities(keys, interested, previous, sessions), pk)
      <==> pk in keys && interested[pk] && FindSession(sessions, pk).Some?
    decreases |keys|
  {
    if keys != [] {
      var rest := keys[1..];
      PrioritiesPks(rest, interested, previous, sessions, pk);
      var head := ItemFor(keys[0], interested, previous, sessions);
      ListsAppend(head, Priorities(rest, interested, previous, sessions), pk);
      assert keys == [keys[0]] + rest;
      assert Lists(head, pk) <==> pk == keys[0] && interested[pk] && FindSession(sessions, pk).Some? by {
        if Lists(head, pk) {
          assert head[0].session.pk == pk;
        }
        if pk == keys[0] && interested[pk] && FindSession(sessions, pk).Some? {
          assert head[0].session.pk == pk;
        }
      }
    }
  }

  /** update's list is in ascending pk order, as the keys are. */
  lemma {:induction false} PrioritiesAscending(keys: seq<nat>, interested: map<nat, bool>, previous: seq<SessionPriority>, sessions: seq<ExchangeSession>)
    requires forall k :: k in keys ==> k in interested
    requires Text.StrictlyAscending(keys)
    ensures forall i, j :: 0 <= i < j < |Priorities(keys, interested, previous, sessions)| ==>
      Priorities(keys, interested, previous, sessions)[i].session.pk < Priorities(keys, interested, previous, sessions)[j].session.pk
    decreases |keys|
  {
    if keys != [] {
      var rest := keys[1..];
      assert Text.StrictlyAscending(rest) by {
        forall i, j | 0 <= i < j < |rest| ensures rest[i] < rest[j] {
          assert rest[i] == keys[i + 1] && rest[j] == keys[j + 1];
        }
      }
      PrioritiesAscending(rest, interested, previous, sessions);
      PrioritiesItems(rest, interested, previous, sessions);
      Text.HeadBelowTail(keys);
      var head := ItemFor(keys[0], interested, previous, sessions);
      var tail := Priorities(rest, interested, previous, sessions);
      var r := head + tail;
      forall i, j | 0 <= i < j < |r| ensures r[i].session.pk < r[j].session.pk {
        assert r[j] == tail[j - |head|];
        if i < |head| {
          assert r[i] == head[0];
        } else {
          assert r[i] == tail[i - |head|];
        }
      }
    }
  }

  // ---------------------------------------------------------------- priority wrap-around

  /** The wrap of updatePriority: above the maximum back to 1, below 1 round to the maximum. */
  function Wrapped(priority: int, maxPriority: int): (r: int)
    ensures maxPriority >= MinPriority ==> MinPriority <= r <= maxPriority
    ensures MinPriority <= priority <= maxPriority ==> r == priority
  {
    if priority > maxPriority then MinPriority else if priority < MinPriority then maxPriority else priority
  }

  /** The component lowers the priority by one per click. */
  function Click(priority: int, maxPriority: int): int
  {
    Wrapped(priority - 1, maxPriority)
  }

  function Clicks(priority: int, maxPriority: int, n: nat): int
    decreases n
  {
    if n == 0 then priority else Clicks(Click(priority, maxPriority), maxPriority, n - 1)
  }

  lemma {:induction false} ClicksAdd(priority: int, maxPriority: int, a: nat, b: nat)
    ensures Clicks(priority, maxPriority, a + b) == Clicks(Clicks(priority, maxPriority, a), maxPriority, b)
    decreases a
  {
    if a > 0 {
      ClicksAdd(Click(priority, maxPriority), maxPriority, a - 1, b);
    }
  }

  lemma {:induction false} ClicksDown(priority: int, maxPriority: int, n: nat)
    requires MinPriority <= priority <= maxPriority && n < priority
    ensures Clicks(priority, maxPriority, n) == priority - n
    decreases n
  {
    if n > 0 {
      ClicksDown(priority - 1, maxPriority, n - 1);
    }
  }

  /**
   * Clicking walks down from the priority to 1, then wraps to the maximum;
   * after as many clicks as there are priorities it is back where it started.
   */
  lemma ClickCycle(priority: int, maxPriority: int)
    requires MinPriority <= priority <= maxPriority
    ensures Click(MinPriority, maxPriority) == maxPriority
    ensures priority > MinPriority ==> Click(priority, maxPriority) == priority - 1
    ensures Clicks(priority, maxPriority, maxPriority as nat) == priority
  {
    var m := maxPriority as nat;
    ClicksAdd(priority, maxPriority, priority as nat, m - priority);
    ClicksAdd(priority, maxPriority, priority as nat - 1, 1);
    ClicksDown(priority, maxPriority, priority as nat - 1);
    ClicksDown(maxPriority, maxPriority, m - priority);
  }

  // ---------------------------------------------------------------- the service

  class Service {
    var interested: map<nat, bool>
    var interestedPriorities: seq<SessionPriority>
    var sessions: seq<ExchangeSession>

    constructor()
      ensures interested == map[] && interestedPriorities == [] && sessions == []
    {
      interested := map[];
      interestedPriorities := [];
      sessions := [];
    }

    /** The sessions arriving from available_sessions: each given its title and sort title, then sorted. */
    method LoadSessions(fetched: seq<ExchangeSession>)
      modifies this`sessions
      ensures sessions == Ordering.SortBy(Titled(fetched), SortTitle)
    {
      var titled: seq<ExchangeSession> := [];
      for i := 0 to |fetched|
        invariant |titled| == i
        invariant forall k :: 0 <= k < i ==> titled[k] == WithTitle(fetched[k])
      {
        var title := SessionTitle(fetched[i]);
        titled := titled + [fetched[i].(title := title, sortTitle := LettersOnly(title))];
      }
      assert titled == Titled(fetched);
      sessions := Ordering.SortBy(titled, SortTitle);
    }

    /** update: the flag of one pk is set, and the interested list is rebuilt from all flags. */
    method Update(pk: nat, value: bool)
      modifies this`interested, this`interestedPriorities
      ensures interested == old(interested)[pk := value]
      ensures interestedPriorities == Priorities(KeysAscending(interested.Keys), interested, old(interestedPriorities), sessions)
    {
      var flags := interested[pk := value];
      var keys := KeysAscending(flags.Keys);
      interestedPriorities := Priorities(keys, flags, interestedPriorities, sessions);
      interested := flags;
    }

    /**
     * updatePriority: the item of the pk gets the priority, wrapped into
     * [1, min(length, 4)]; the other items, the length and the order stay.
     */
    method UpdatePriority(pk: nat, priority: int)
      modifies this`interestedPriorities
      ensures |interestedPriorities| == |old(interestedPriorities)|
      ensures forall i :: 0 <= i < |interestedPriorities| ==>
        && interestedPriorities[i].session == old(interestedPriorities)[i].session
        && interestedPriorities[i].priority ==
             if old(interestedPriorities)[i].session.pk == pk
             then Wrapped(priority, if |old(interestedPriorities)| < MaxPriority then |old(interestedPriorities)| else MaxPriority)
             else old(interestedPriorities)[i].priority
    {
      var items := interestedPriorities;
      var maxPriority := if |items| < MaxPriority then |items| else MaxPriority;
      var p := priority;
      var result: seq<SessionPriority> := [];
      for i := 0 to |items|
        invariant |result| == i
        invariant p == priority || (maxPriority >= MinPriority && p == Wrapped(priority, maxPriority))
        invariant forall k :: 0 <= k < i ==> result[k].session == items[k].session
        invariant forall k :: 0 <= k < i ==>
          result[k].priority == if items[k].session.pk == pk then Wrapped(priority, maxPriority) else items[k].priority
      {
        var item := items[i];
        if item.session.pk == pk {
          if p > maxPriority {
            p := MinPriority;
          } else if p < MinPriority {
            p := maxPriority;
          }
          item := item.(priority := p);
        }
        result := result + [item];
      }
      interestedPriorities := result;
    }
  }
}
