/**
 * The batch assignment allocator (the `assign` management command).
 *
 * The command clears the assignments of the active exchange's sessions, marks
 * every requestor unassigned, then walks the priorities 1..max and, within a
 * priority, the registrations in date_time order, placing each still
 * unassigned requestor greedily into the requested session while capacity is
 * left. A registration without a session sends the requestor to a "random"
 * pool, which is placed at the end by a manual choice that is validated and
 * re-asked until it names a session of the active exchange with capacity left.
 *
 * The first half of this module is the allocator as a state machine on values
 * (AllocState) with its invariants proved; the class Allocator at the end is
 * the command itself, updating its fields in place, each method tied to the
 * state-machine step it performs.
 */
module Assign {
  import opened Wrappers
  import opened Domain
  import opened Tally

  /** What the command reads and never changes: the active exchange and the sessions in the store. */
  datatype Setting = Setting(
    exchange: ExchangeId,
    sessions: map<SessionPk, Session>,
    exchangeSessions: seq<SessionPk>)   // ExchangeSession.objects.filter(exchange=...) in query order

  /** The allocator's state. placement records, for this run, the session each placed requestor went to. */
  datatype AllocState = AllocState(
    requestors: set<PersonId>,
    unassigned: set<PersonId>,
    random: set<PersonId>,
    randomOrder: seq<PersonId>,           // the random pool in the order it was filled
    capacities: map<SessionPk, int>,
    counts: map<SessionPk, int>,
    members: map<SessionPk, set<PersonId>>,
    placement: map<PersonId, SessionPk>)

  ghost predicate WellFormed(cfg: Setting)
  {
    && (forall pk :: pk in cfg.sessions ==> cfg.sessions[pk].pk == pk)
    && Distinct(cfg.exchangeSessions)
    && (forall i :: 0 <= i < |cfg.exchangeSessions| ==> InActive(cfg, cfg.exchangeSessions[i]))
    && (forall pk :: InActive(cfg, pk) ==> pk in cfg.exchangeSessions)
  }

  predicate InActive(cfg: Setting, pk: SessionPk)
  {
    pk in cfg.sessions && cfg.sessions[pk].exchange == cfg.exchange
  }

  /** Registrations only name sessions that exist (a foreign key). */
  predicate SessionKnown(cfg: Setting, r: Registration)
  {
    r.session.Some? ==> r.session.value in cfg.sessions
  }

  predicate AllKnown(cfg: Setting, regs: seq<Registration>)
  {
    forall i :: 0 <= i < |regs| ==> SessionKnown(cfg, regs[i])
  }

  /** The registrations as the command reads them: of the active exchange, ordered by date_time. */
  predicate InQueryOrder(cfg: Setting, regs: seq<Registration>)
  {
    && (forall i :: 0 <= i < |regs| ==> regs[i].exchange == cfg.exchange)
    && (forall i, j :: 0 <= i < j < |regs| ==> regs[i].dateTime <= regs[j].dateTime)
  }

  /** The two caches are filled together. */
  predicate KeysAgree(cfg: Setting, st: AllocState)
  {
    && st.capacities.Keys == st.counts.Keys
    && st.counts.Keys <= cfg.sessions.Keys
  }

  ghost function PlacedIn(st: AllocState, pk: SessionPk): set<PersonId>
  {
    set p | p in st.placement && st.placement[p] == pk
  }

  /** The assigned relation of a session; a session without one has nobody assigned. */
  function Members(st: AllocState, pk: SessionPk): set<PersonId>
  {
    if pk in st.members then st.members[pk] else {}
  }

  /** The run's placement count of a session; a session never looked up has none. */
  function PlacedCount(st: AllocState, pk: SessionPk): int
  {
    if pk in st.counts then st.counts[pk] else 0
  }

  /**
   * The allocator's invariant:
   *  - every requestor is unassigned, in the random pool, or placed, and never both unassigned and elsewhere;
   *  - capacity + count is the session's effective capacity, and the count is the number placed there;
   *  - a session with placements has not gone below zero capacity;
   *  - the cleared sessions of the active exchange hold exactly the run's placements.
   */
  ghost predicate Inv(cfg: Setting, st: AllocState)
  {
    KeysAgree(cfg, st) && PeopleInv(st) && SeatsInv(cfg, st) && MembersInv(cfg, st)
  }

  /** Every requestor is unassigned, in the random pool, or placed, and never both unassigned and elsewhere. */
  ghost predicate PeopleInv(st: AllocState)
  {
    && st.requestors == st.unassigned + st.random + st.placement.Keys
    && st.unassigned !! st.random
    && st.unassigned !! st.placement.Keys
    && (forall p :: p in st.random <==> p in st.randomOrder)
    && Distinct(st.randomOrder)
  }

  /** Capacity + count is the effective capacity, the count is the number placed, and placed sessions are cached. */
  ghost predicate SeatsInv(cfg: Setting, st: AllocState)
    requires KeysAgree(cfg, st)
  {
    && (forall pk :: pk in st.counts ==> st.capacities[pk] + st.counts[pk] == Capacity(cfg.sessions[pk]))
    && (forall pk :: pk in st.counts ==> st.counts[pk] == |PlacedIn(st, pk)|)
    && (forall pk :: pk in st.counts && st.counts[pk] > 0 ==> st.capacities[pk] >= 0)
    && (forall p :: p in st.placement ==> st.placement[p] in st.counts)
  }

  /** The assigned relations: one per session, and the active exchange's sessions hold exactly the run's placements. */
  ghost predicate MembersInv(cfg: Setting, st: AllocState)
  {
    && st.members.Keys == cfg.sessions.Keys
    && (forall p :: p in st.placement ==> st.placement[p] in st.members && p in st.members[st.placement[p]])
    && (forall pk :: InActive(cfg, pk) ==> pk in st.members && st.members[pk] == PlacedIn(st, pk))
  }

  /** During the priority pass the three places are disjoint. */
  ghost predicate Partitioned(cfg: Setting, st: AllocState)
  {
    Inv(cfg, st) && st.random !! st.placement.Keys
  }

  // ------------------------------------------------------------------ steps

  /** clear(): the assignments of every session of the active exchange are emptied. */
  function Cleared(members: map<SessionPk, set<PersonId>>, pks: seq<SessionPk>): (r: map<SessionPk, set<PersonId>>)
    ensures r.Keys == members.Keys + set pk | pk in pks
    ensures forall pk :: pk in pks ==> r[pk] == {}
    ensures forall pk :: pk in members && pk !in pks ==> r[pk] == members[pk]
  {
    if pks == [] then members
    else Cleared(members, pks[..|pks| - 1])[pks[|pks| - 1] := {}]
  }

  /** The state at the start of a run, after the assignments were cleared. */
  function Start(cfg: Setting, members: map<SessionPk, set<PersonId>>): AllocState
  {
    AllocState({}, {}, {}, [], map[], map[], Cleared(members, cfg.exchangeSessions), map[])
  }

  /** Marking a requestor: added to the requestors and to the unassigned. */
  function Mark(st: AllocState, r: Registration): AllocState
  {
    st.(requestors := st.requestors + {r.requestor}, unassigned := st.unassigned + {r.requestor})
  }

  /** The requestors of some registrations. */
  function RequestorsOf(regs: seq<Registration>): (r: set<PersonId>)
    ensures forall i :: 0 <= i < |regs| ==> regs[i].requestor in r
    ensures forall p :: p in r ==> exists i :: 0 <= i < |regs| && regs[i].requestor == p
  {
    if regs == [] then {} else RequestorsOf(regs[..|regs| - 1]) + {regs[|regs| - 1].requestor}
  }

  function MarkPrefix(st: AllocState, regs: seq<Registration>, i: nat): AllocState
    requires i <= |regs|
  {
    if i == 0 then st else Mark(MarkPrefix(st, regs, i - 1), regs[i - 1])
  }

  /** get_capacity: on first lookup the capacity is cached as participants_max * session_count and the count as 0. */
  function CacheCapacity(cfg: Setting, st: AllocState, pk: SessionPk): (st': AllocState)
    requires pk in cfg.sessions && KeysAgree(cfg, st)
    ensures KeysAgree(cfg, st') && pk in st'.capacities
  {
    if pk in st.capacities then st
    else st.(capacities := st.capacities[pk := Capacity(cfg.sessions[pk])], counts := st.counts[pk := 0])
  }

  /** perform_placement: one seat taken, one more placed, optionally removed from the unassigned. */
  function Place(cfg: Setting, st: AllocState, p: PersonId, pk: SessionPk, remove: bool): (st': AllocState)
    requires KeysAgree(cfg, st) && pk in st.capacities
    ensures KeysAgree(cfg, st')
  {
    st.(capacities := st.capacities[pk := st.capacities[pk] - 1],
        counts := st.counts[pk := st.counts[pk] + 1],
        unassigned := if remove then st.unassigned - {p} else st.unassigned,
        members := st.members[pk := Members(st, pk) + {p}],
        placement := st.placement[p := pk])
  }

  /** attempt_placement */
  function Attempt(cfg: Setting, st: AllocState, r: Registration): (st': AllocState)
    requires KeysAgree(cfg, st) && SessionKnown(cfg, r)
    ensures KeysAgree(cfg, st')
  {
    var p := r.requestor;
    if p !in st.unassigned then st
    else match r.session
      case None =>
        st.(random := st.random + {p},
            randomOrder := if p in st.random then st.randomOrder else st.randomOrder + [p],
            unassigned := st.unassigned - {p})
      case Some(pk) =>
        var st1 := CacheCapacity(cfg, st, pk);
        if st1.capacities[pk] > 0 then Place(cfg, st1, p, pk, true) else st1
  }

  /** One priority round over the first i registrations (date_time order). */
  function RoundPrefix(cfg: Setting, st: AllocState, regs: seq<Registration>, priority: int, i: nat): (st': AllocState)
    requires i <= |regs| && KeysAgree(cfg, st) && AllKnown(cfg, regs)
    ensures KeysAgree(cfg, st')
  {
    if i == 0 then st
    else
      var prev := RoundPrefix(cfg, st, regs, priority, i - 1);
      if regs[i - 1].priority == priority then Attempt(cfg, prev, regs[i - 1]) else prev
  }

  /** The priority pass for priorities 1..k. */
  function PassUpTo(cfg: Setting, st: AllocState, regs: seq<Registration>, k: nat): (st': AllocState)
    requires KeysAgree(cfg, st) && AllKnown(cfg, regs)
    ensures KeysAgree(cfg, st')
  {
    if k == 0 then st
    else RoundPrefix(cfg, PassUpTo(cfg, st, regs, k - 1), regs, k, |regs|)
  }

  // ------------------------------------------------------------------ invariant proofs

  lemma StartInv(cfg: Setting, members: map<SessionPk, set<PersonId>>)
    requires WellFormed(cfg) && members.Keys == cfg.sessions.Keys
    ensures Partitioned(cfg, Start(cfg, members))
  {
    var st := Start(cfg, members);
    forall pk | pk in cfg.exchangeSessions ensures pk in cfg.sessions {
      assert InActive(cfg, pk);
    }
    forall pk | InActive(cfg, pk) ensures st.members[pk] == PlacedIn(st, pk) {
      assert pk in cfg.exchangeSessions;
    }
  }

  /** Marking only adds the requestors of the registrations, to the requestors and to the unassigned. */
  lemma {:induction false} MarkShape(st: AllocState, regs: seq<Registration>, i: nat)
    requires i <= |regs|
    ensures MarkPrefix(st, regs, i) ==
      st.(requestors := st.requestors + RequestorsOf(regs[..i]), unassigned := st.unassigned + RequestorsOf(regs[..i]))
    decreases i
  {
    if i == 0 {
      assert regs[..0] == [];
    } else {
      MarkShape(st, regs, i - 1);
      assert regs[..i][..i - 1] == regs[..i - 1];
    }
  }

  /** Adding people who are not placed to both the requestors and the unassigned keeps the invariant. */
  lemma AddUnassignedInv(cfg: Setting, st: AllocState, people: set<PersonId>)
    requires Partitioned(cfg, st) && st.random == {} && st.placement == map[]
    ensures Partitioned(cfg, st.(requestors := st.requestors + people, unassigned := st.unassigned + people))
  {
    var st' := st.(requestors := st.requestors + people, unassigned := st.unassigned + people);
    forall q ensures PlacedIn(st', q) == PlacedIn(st, q) == {} { }
  }

  /** After marking, every requestor of the registrations is unassigned and nobody is placed. */
  lemma MarkInv(cfg: Setting, st: AllocState, regs: seq<Registration>, i: nat)
    requires i <= |regs| && Partitioned(cfg, st) && st.random == {} && st.placement == map[] && st.unassigned == st.requestors
    ensures var st' := MarkPrefix(st, regs, i);
      && Partitioned(cfg, st') && st'.random == {} && st'.placement == map[]
      && st'.requestors == st.requestors + RequestorsOf(regs[..i])
      && st'.unassigned == st'.requestors
  {
    MarkShape(st, regs, i);
    AddUnassignedInv(cfg, st, RequestorsOf(regs[..i]));
  }

  lemma CacheInv(cfg: Setting, st: AllocState, pk: SessionPk)
    requires pk in cfg.sessions && Inv(cfg, st)
    ensures var st' := CacheCapacity(cfg, st, pk);
      && Inv(cfg, st')
      && (st.random !! st.placement.Keys ==> st'.random !! st'.placement.Keys)
      && st'.unassigned == st.unassigned && st'.random == st.random && st'.placement == st.placement
      && st'.capacities[pk] + st'.counts[pk] == Capacity(cfg.sessions[pk])
  {
    var st' := CacheCapacity(cfg, st, pk);
    if pk !in st.capacities {
      assert PlacedIn(st', pk) == {} by {
        forall p | p in st'.placement ensures st'.placement[p] != pk { }
      }
      forall q | q in st'.counts ensures st'.counts[q] == |PlacedIn(st', q)| {
        assert PlacedIn(st', q) == PlacedIn(st, q);
      }
      forall q | InActive(cfg, q) ensures st'.members[q] == PlacedIn(st', q) {
        assert PlacedIn(st', q) == PlacedIn(st, q);
      }
    }
  }

  lemma PlacedInAfterPlace(cfg: Setting, st: AllocState, p: PersonId, pk: SessionPk, remove: bool, q: SessionPk)
    requires KeysAgree(cfg, st) && pk in st.capacities && p !in st.placement
    ensures PlacedIn(Place(cfg, st, p, pk, remove), q) == if q == pk then PlacedIn(st, q) + {p} else PlacedIn(st, q)
  {
  }

  /** A placement keeps the invariant when the person was not yet placed and a seat is left. */
  lemma PlaceInv(cfg: Setting, st: AllocState, p: PersonId, pk: SessionPk, remove: bool)
    requires Inv(cfg, st) && pk in st.capacities && st.capacities[pk] > 0
    requires p !in st.placement
    requires remove ==> p in st.unassigned
    requires !remove ==> p in st.random
    ensures Inv(cfg, Place(cfg, st, p, pk, remove))
  {
    PlacePeople(cfg, st, p, pk, remove);
    PlaceSeats(cfg, st, p, pk, remove);
    PlaceMembers(cfg, st, p, pk, remove);
  }

  lemma PlacePeople(cfg: Setting, st: AllocState, p: PersonId, pk: SessionPk, remove: bool)
    requires KeysAgree(cfg, st) && PeopleInv(st) && pk in st.capacities && p !in st.placement
    requires remove ==> p in st.unassigned
    requires !remove ==> p in st.random
    ensures PeopleInv(Place(cfg, st, p, pk, remove))
  {
  }

  lemma PlaceSeats(cfg: Setting, st: AllocState, p: PersonId, pk: SessionPk, remove: bool)
    requires KeysAgree(cfg, st) && SeatsInv(cfg, st) && pk in st.capacities && st.capacities[pk] > 0
    requires p !in st.placement
    ensures SeatsInv(cfg, Place(cfg, st, p, pk, remove))
  {
    var st' := Place(cfg, st, p, pk, remove);
    forall q | q in st'.counts ensures st'.counts[q] == |PlacedIn(st', q)| {
      PlacedInAfterPlace(cfg, st, p, pk, remove, q);
    }
  }

  lemma PlaceMembers(cfg: Setting, st: AllocState, p: PersonId, pk: SessionPk, remove: bool)
    requires KeysAgree(cfg, st) && MembersInv(cfg, st) && pk in st.capacities && p !in st.placement
    ensures MembersInv(cfg, Place(cfg, st, p, pk, remove))
  {
    var st' := Place(cfg, st, p, pk, remove);
    forall q | InActive(cfg, q) ensures st'.members[q] == PlacedIn(st', q) {
      PlacedInAfterPlace(cfg, st, p, pk, remove, q);
    }
    forall x | x in st'.placement ensures st'.placement[x] in st'.members && x in st'.members[st'.placement[x]] {
      if x != p {
        assert st'.placement[x] == st.placement[x];
      }
    }
  }

  /**
   * attempt_placement keeps the invariant, with the three places disjoint; a registration without a
   * session moves its unassigned requestor to the random pool and takes no seat.
   */
  lemma AttemptInv(cfg: Setting, st: AllocState, r: Registration)
    requires Partitioned(cfg, st) && SessionKnown(cfg, r)
    ensures Partitioned(cfg, Attempt(cfg, st, r))
    ensures r.requestor in st.unassigned && r.session.None? ==>
      var st' := Attempt(cfg, st, r);
      && st'.unassigned == st.unassigned - {r.requestor}
      && st'.random == st.random + {r.requestor}
      && st'.capacities == st.capacities && st'.counts == st.counts
      && st'.placement == st.placement && st'.members == st.members
  {
    var p := r.requestor;
    if p in st.unassigned {
      match r.session {
        case None =>
          var st' := Attempt(cfg, st, r);
          assert st'.randomOrder == st.randomOrder + [p];
          assert Distinct(st'.randomOrder) by {
            assert p !in st.randomOrder;
          }
          forall q | q in st'.counts ensures st'.counts[q] == |PlacedIn(st', q)| {
            assert PlacedIn(st', q) == PlacedIn(st, q);
          }
          forall q | InActive(cfg, q) ensures st'.members[q] == PlacedIn(st', q) {
            assert PlacedIn(st', q) == PlacedIn(st, q);
          }
        case Some(pk) =>
          CacheInv(cfg, st, pk);
          var st1 := CacheCapacity(cfg, st, pk);
          if st1.capacities[pk] > 0 {
            PlaceInv(cfg, st1, p, pk, true);
          }
      }
    }
  }

  lemma {:induction false} RoundInv(cfg: Setting, st: AllocState, regs: seq<Registration>, priority: int, i: nat)
    requires i <= |regs| && Partitioned(cfg, st) && AllKnown(cfg, regs)
    ensures Partitioned(cfg, RoundPrefix(cfg, st, regs, priority, i))
    decreases i
  {
    if i > 0 {
      RoundInv(cfg, st, regs, priority, i - 1);
      if regs[i - 1].priority == priority {
        AttemptInv(cfg, RoundPrefix(cfg, st, regs, priority, i - 1), regs[i - 1]);
      }
    }
  }

  /**
   * After the priority pass every requestor is in exactly one of three places:
   * the unassigned set, the random pool, or the placements of this run.
   */
  lemma {:induction false} PassInv(cfg: Setting, st: AllocState, regs: seq<Registration>, k: nat)
    requires Partitioned(cfg, st) && AllKnown(cfg, regs)
    ensures Partitioned(cfg, PassUpTo(cfg, st, regs, k))
    decreases k
  {
    if k > 0 {
      PassInv(cfg, st, regs, k - 1);
      RoundInv(cfg, PassUpTo(cfg, st, regs, k - 1), regs, k, |regs|);
    }
  }

  // ------------------------------------------------------------------ progress

  /** Between two states of a run: nobody becomes unassigned again, capacities only go down, placements stay. */
  ghost predicate Grows(st: AllocState, st': AllocState)
  {
    && st'.requestors == st.requestors
    && st'.unassigned <= st.unassigned
    && st.random <= st'.random
    && st.capacities.Keys <= st'.capacities.Keys
    && (forall pk :: pk in st.capacities ==> st'.capacities[pk] <= st.capacities[pk])
    && (forall p :: p in st.placement ==> p in st'.placement && st'.placement[p] == st.placement[p])
  }

  lemma GrowsTrans(st1: AllocState, st2: AllocState, st3: AllocState)
    requires Grows(st1, st2) && Grows(st2, st3)
    ensures Grows(st1, st3)
  {
  }

  /** Only an unplaced requestor can be waiting for a seat. */
  predicate Waiting(st: AllocState)
  {
    st.unassigned !! st.placement.Keys
  }

  lemma AttemptGrows(cfg: Setting, st: AllocState, r: Registration)
    requires KeysAgree(cfg, st) && SessionKnown(cfg, r) && Waiting(st)
    ensures Grows(st, Attempt(cfg, st, r)) && Waiting(Attempt(cfg, st, r))
  {
  }

  lemma {:induction false} RoundGrows(cfg: Setting, st: AllocState, regs: seq<Registration>, priority: int, i: nat)
    requires i <= |regs| && KeysAgree(cfg, st) && AllKnown(cfg, regs) && Waiting(st)
    ensures Grows(st, RoundPrefix(cfg, st, regs, priority, i)) && Waiting(RoundPrefix(cfg, st, regs, priority, i))
    decreases i
  {
    if i > 0 {
      RoundGrows(cfg, st, regs, priority, i - 1);
      var prev := RoundPrefix(cfg, st, regs, priority, i - 1);
      if regs[i - 1].priority == priority {
        AttemptGrows(cfg, prev, regs[i - 1]);
        GrowsTrans(st, prev, Attempt(cfg, prev, regs[i - 1]));
      }
    }
  }

  /** Placements made in an earlier priority round are never undone by a later one. */
  lemma {:induction false} PassGrows(cfg: Setting, st: AllocState, regs: seq<Registration>, k: nat)
    requires KeysAgree(cfg, st) && AllKnown(cfg, regs) && Waiting(st)
    ensures Grows(st, PassUpTo(cfg, st, regs, k)) && Waiting(PassUpTo(cfg, st, regs, k))
    decreases k
  {
    if k > 0 {
      PassGrows(cfg, st, regs, k - 1);
      var prev := PassUpTo(cfg, st, regs, k - 1);
      RoundGrows(cfg, prev, regs, k, |regs|);
      GrowsTrans(st, prev, PassUpTo(cfg, st, regs, k));
    }
  }

  /** A session with no seat left. */
  predicate Full(st: AllocState, pk: SessionPk)
  {
    pk in st.capacities && st.capacities[pk] <= 0
  }

  /** A registration is dealt with: its requestor is no longer unassigned, or it asked for a full session. */
  predicate Settled(st: AllocState, r: Registration)
  {
    r.requestor !in st.unassigned || (r.session.Some? && Full(st, r.session.value))
  }

  lemma SettledStays(st: AllocState, st': AllocState, r: Registration)
    requires Grows(st, st') && Settled(st, r)
    ensures Settled(st', r)
  {
  }

  lemma AttemptSettles(cfg: Setting, st: AllocState, r: Registration)
    requires KeysAgree(cfg, st) && SessionKnown(cfg, r)
    ensures Settled(Attempt(cfg, st, r), r)
  {
  }

  lemma {:induction false} RoundSettles(cfg: Setting, st: AllocState, regs: seq<Registration>, priority: int, i: nat)
    requires i <= |regs| && KeysAgree(cfg, st) && AllKnown(cfg, regs) && Waiting(st)
    ensures forall j :: 0 <= j < i && regs[j].priority == priority ==> Settled(RoundPrefix(cfg, st, regs, priority, i), regs[j])
    decreases i
  {
    if i > 0 {
      RoundSettles(cfg, st, regs, priority, i - 1);
      var prev := RoundPrefix(cfg, st, regs, priority, i - 1);
      if regs[i - 1].priority == priority {
        var next := Attempt(cfg, prev, regs[i - 1]);
        RoundGrows(cfg, st, regs, priority, i - 1);
        AttemptGrows(cfg, prev, regs[i - 1]);
        AttemptSettles(cfg, prev, regs[i - 1]);
        forall j | 0 <= j < i - 1 && regs[j].priority == priority ensures Settled(next, regs[j]) {
          SettledStays(prev, next, regs[j]);
        }
      }
    }
  }

  /** Between two points of a round, the later state grows from the earlier one. */
  lemma {:induction false} RoundGrowsBetween(cfg: Setting, st: AllocState, regs: seq<Registration>, priority: int, i: nat, j: nat)
    requires i <= j <= |regs| && KeysAgree(cfg, st) && AllKnown(cfg, regs) && Waiting(st)
    ensures Grows(RoundPrefix(cfg, st, regs, priority, i), RoundPrefix(cfg, st, regs, priority, j))
    decreases j - i
  {
    if j > i {
      RoundGrowsBetween(cfg, st, regs, priority, i, j - 1);
      var prev := RoundPrefix(cfg, st, regs, priority, j - 1);
      if regs[j - 1].priority == priority {
        RoundGrows(cfg, st, regs, priority, j - 1);
        AttemptGrows(cfg, prev, regs[j - 1]);
        GrowsTrans(RoundPrefix(cfg, st, regs, priority, i), prev, Attempt(cfg, prev, regs[j - 1]));
      }
    }
  }

  /**
   * First come, first served within a priority: when an earlier registration for a session leaves its
   * requestor unassigned, the session is full, so a later registration of the same priority for the
   * same session changes nothing and nobody is placed there after it.
   */
  lemma EarlierRequestFirst(cfg: Setting, st: AllocState, regs: seq<Registration>, priority: int, i: nat, j: nat)
    requires i < j < |regs| && KeysAgree(cfg, st) && AllKnown(cfg, regs) && Waiting(st)
    requires regs[i].priority == priority && regs[j].priority == priority
    requires regs[i].session.Some? && regs[j].session == regs[i].session
    requires regs[i].requestor in RoundPrefix(cfg, st, regs, priority, i + 1).unassigned
    ensures RoundPrefix(cfg, st, regs, priority, j + 1) == RoundPrefix(cfg, st, regs, priority, j)
  {
    var pk := regs[i].session.value;
    var before := RoundPrefix(cfg, st, regs, priority, i);
    var after := RoundPrefix(cfg, st, regs, priority, i + 1);
    AttemptSettles(cfg, before, regs[i]);
    assert Full(after, pk);
    RoundGrowsBetween(cfg, st, regs, priority, i + 1, j);
    var prev := RoundPrefix(cfg, st, regs, priority, j);
    assert Full(prev, pk);
    assert Attempt(cfg, prev, regs[j]) == prev;
  }

  /**
   * First come, first served in terms of the registration times: a request registered strictly
   * later than one that left its requestor unassigned, at the same priority and for the same
   * session, comes later in the query order and changes nothing.
   */
  lemma EarlierRequestFirstByTime(cfg: Setting, st: AllocState, regs: seq<Registration>, priority: int, i: nat, j: nat)
    requires i < |regs| && j < |regs| && InQueryOrder(cfg, regs) && regs[i].dateTime < regs[j].dateTime
    requires KeysAgree(cfg, st) && AllKnown(cfg, regs) && Waiting(st)
    requires regs[i].priority == priority && regs[j].priority == priority
    requires regs[i].session.Some? && regs[j].session == regs[i].session
    requires regs[i].requestor in RoundPrefix(cfg, st, regs, priority, i + 1).unassigned
    ensures i < j && RoundPrefix(cfg, st, regs, priority, j + 1) == RoundPrefix(cfg, st, regs, priority, j)
  {
    EarlierRequestFirst(cfg, st, regs, priority, i, j);
  }

  /**
   * After the rounds for priorities 1..k, every registration of those priorities is dealt with:
   * a requestor still unassigned asked, at each of those priorities, for a session that is full.
   */
  lemma {:induction false} PassSettles(cfg: Setting, st: AllocState, regs: seq<Registration>, k: nat)
    requires KeysAgree(cfg, st) && AllKnown(cfg, regs) && Waiting(st)
    ensures forall j :: 0 <= j < |regs| && 1 <= regs[j].priority <= k ==> Settled(PassUpTo(cfg, st, regs, k), regs[j])
    decreases k
  {
    if k > 0 {
      PassSettles(cfg, st, regs, k - 1);
      var prev := PassUpTo(cfg, st, regs, k - 1);
      var next := PassUpTo(cfg, st, regs, k);
      PassGrows(cfg, st, regs, k - 1);
      RoundSettles(cfg, prev, regs, k, |regs|);
      RoundGrows(cfg, prev, regs, k, |regs|);
      forall j | 0 <= j < |regs| && 1 <= regs[j].priority <= k - 1 ensures Settled(next, regs[j]) {
        SettledStays(prev, next, regs[j]);
      }
    }
  }

  /** p has a registration asking for session pk. */
  ghost predicate Requested(regs: seq<Registration>, p: PersonId, pk: SessionPk)
  {
    exists j :: 0 <= j < |regs| && regs[j].requestor == p && regs[j].session == Some(pk)
  }

  ghost predicate OnlyRequested(regs: seq<Registration>, st: AllocState)
  {
    forall p :: p in st.placement ==> Requested(regs, p, st.placement[p])
  }

  lemma AttemptRequested(cfg: Setting, st: AllocState, regs: seq<Registration>, j: nat)
    requires j < |regs| && KeysAgree(cfg, st) && SessionKnown(cfg, regs[j]) && OnlyRequested(regs, st) && Waiting(st)
    ensures OnlyRequested(regs, Attempt(cfg, st, regs[j])) && Waiting(Attempt(cfg, st, regs[j]))
  {
    var st' := Attempt(cfg, st, regs[j]);
    forall p | p in st'.placement ensures Requested(regs, p, st'.placement[p]) {
      if p !in st.placement {
        assert p == regs[j].requestor && st'.placement[p] == regs[j].session.value;
      } else {
        assert st'.placement[p] == st.placement[p];
      }
    }
  }

  lemma {:induction false} RoundRequested(cfg: Setting, st: AllocState, regs: seq<Registration>, priority: int, i: nat)
    requires i <= |regs| && KeysAgree(cfg, st) && AllKnown(cfg, regs) && OnlyRequested(regs, st) && Waiting(st)
    ensures OnlyRequested(regs, RoundPrefix(cfg, st, regs, priority, i)) && Waiting(RoundPrefix(cfg, st, regs, priority, i))
    decreases i
  {
    if i > 0 {
      RoundRequested(cfg, st, regs, priority, i - 1);
      if regs[i - 1].priority == priority {
        AttemptRequested(cfg, RoundPrefix(cfg, st, regs, priority, i - 1), regs, i - 1);
      }
    }
  }

  /** The priority pass only places a requestor in a session they asked for. */
  lemma {:induction false} PassRequested(cfg: Setting, st: AllocState, regs: seq<Registration>, k: nat)
    requires KeysAgree(cfg, st) && AllKnown(cfg, regs) && OnlyRequested(regs, st) && Waiting(st)
    ensures OnlyRequested(regs, PassUpTo(cfg, st, regs, k)) && Waiting(PassUpTo(cfg, st, regs, k))
    decreases k
  {
    if k > 0 {
      PassRequested(cfg, st, regs, k - 1);
      RoundRequested(cfg, PassUpTo(cfg, st, regs, k - 1), regs, k, |regs|);
    }
  }

  /** No session ever holds more of this run's placements than its effective capacity. */
  lemma NeverOverCapacity(cfg: Setting, st: AllocState, pk: SessionPk)
    requires Inv(cfg, st) && pk in cfg.sessions
    ensures |PlacedIn(st, pk)| <= if PlacedIn(st, pk) == {} then 0 else Capacity(cfg.sessions[pk])
    ensures InActive(cfg, pk) ==> |st.members[pk]| == |PlacedIn(st, pk)|
  {
    if pk !in st.counts {
      forall p | p in st.placement ensures st.placement[p] != pk { }
      assert PlacedIn(st, pk) == {};
    }
  }

  // ------------------------------------------------------------------ the manual phase (assign_random)

  /** One line typed at the "Assign to pk?" prompt: a number, or something int() rejects. */
  datatype Answer = Typed(pk: int) | NotANumber

  /**
   * assign_random for person p: reads answers until one names an existing session that has
   * capacity left and belongs to the active exchange, then places p there without touching the
   * unassigned set. Every rejected answer is re-asked. The capacity is looked up (and cached)
   * before the exchange is checked, so answering a session of another exchange caches it too.
   * When the answers run out nobody is placed; the rest of the answers is returned.
   */
  function AskFor(cfg: Setting, st: AllocState, p: PersonId, answers: seq<Answer>): (res: (AllocState, seq<Answer>))
    requires KeysAgree(cfg, st)
    ensures KeysAgree(cfg, res.0) && |res.1| <= |answers|
    decreases |answers|
  {
    if answers == [] then (st, [])
    else match answers[0]
      case NotANumber => AskFor(cfg, st, p, answers[1..])
      case Typed(pk) =>
        if pk !in cfg.sessions then AskFor(cfg, st, p, answers[1..])
        else
          var st1 := CacheCapacity(cfg, st, pk);
          if st1.capacities[pk] <= 0 then AskFor(cfg, st1, p, answers[1..])
          else if cfg.sessions[pk].exchange != cfg.exchange then AskFor(cfg, st1, p, answers[1..])
          else (Place(cfg, st1, p, pk, false), answers[1..])
  }

  /** The manual phase for the first k persons of the pool, sharing one stream of answers. */
  function ManualPrefix(cfg: Setting, st: AllocState, order: seq<PersonId>, answers: seq<Answer>, k: nat): (res: (AllocState, seq<Answer>))
    requires k <= |order| && KeysAgree(cfg, st)
    ensures KeysAgree(cfg, res.0)
  {
    if k == 0 then (st, answers)
    else
      var prev := ManualPrefix(cfg, st, order, answers, k - 1);
      AskFor(cfg, prev.0, order[k - 1], prev.1)
  }

  /**
   * assign_random for one person: either p ends up placed in a session of the active exchange,
   * or the answers ran out and nothing but the capacity cache changed.
   */
  lemma {:induction false} AskForShape(cfg: Setting, st: AllocState, p: PersonId, answers: seq<Answer>)
    requires KeysAgree(cfg, st) && p !in st.placement
    ensures var (st', rest) := AskFor(cfg, st, p, answers);
      && Grows(st, st')
      && st'.random == st.random && st'.unassigned == st.unassigned && st'.requestors == st.requestors
      && (p in st'.placement ==> InActive(cfg, st'.placement[p]))
      && (p !in st'.placement ==> rest == [] && st'.placement == st.placement)
      && st'.placement.Keys <= st.placement.Keys + {p}
    decreases |answers|
  {
    if answers != [] {
      match answers[0] {
        case NotANumber =>
          AskForShape(cfg, st, p, answers[1..]);
        case Typed(pk) =>
          if pk !in cfg.sessions {
            AskForShape(cfg, st, p, answers[1..]);
          } else {
            var st1 := CacheCapacity(cfg, st, pk);
            if st1.capacities[pk] <= 0 || cfg.sessions[pk].exchange != cfg.exchange {
              AskForShape(cfg, st1, p, answers[1..]);
              GrowsTrans(st, st1, AskFor(cfg, st1, p, answers[1..]).0);
            }
          }
      }
    }
  }

  /** assign_random for a person of the pool keeps the invariant. */
  lemma {:induction false} AskForInv(cfg: Setting, st: AllocState, p: PersonId, answers: seq<Answer>)
    requires Inv(cfg, st) && p in st.random && p !in st.placement
    ensures Inv(cfg, AskFor(cfg, st, p, answers).0)
    decreases |answers|
  {
    if answers != [] {
      match answers[0] {
        case NotANumber =>
          AskForInv(cfg, st, p, answers[1..]);
        case Typed(pk) =>
          if pk !in cfg.sessions {
            AskForInv(cfg, st, p, answers[1..]);
          } else {
            CacheInv(cfg, st, pk);
            var st1 := CacheCapacity(cfg, st, pk);
            if st1.capacities[pk] <= 0 || cfg.sessions[pk].exchange != cfg.exchange {
              AskForInv(cfg, st1, p, answers[1..]);
            } else {
              PlaceInv(cfg, st1, p, pk, false);
            }
          }
      }
    }
  }

  /** The manual phase leaves the three sets alone and places nobody beyond the first k of the pool. */
  lemma {:induction false} ManualShape(cfg: Setting, st: AllocState, order: seq<PersonId>, answers: seq<Answer>, k: nat)
    requires k <= |order| && KeysAgree(cfg, st) && Distinct(order)
    requires forall j :: 0 <= j < |order| ==> order[j] !in st.placement
    ensures var st' := ManualPrefix(cfg, st, order, answers, k).0;
      && Grows(st, st')
      && st'.random == st.random && st'.unassigned == st.unassigned && st'.requestors == st.requestors
      && (forall j :: k <= j < |order| ==> order[j] !in st'.placement)
      && (forall q :: q in st'.placement && q !in st.placement ==> q in order[..k])
    decreases k
  {
    if k > 0 {
      ManualShape(cfg, st, order, answers, k - 1);
      var prev := ManualPrefix(cfg, st, order, answers, k - 1);
      var p := order[k - 1];
      AskForShape(cfg, prev.0, p, prev.1);
      var st' := AskFor(cfg, prev.0, p, prev.1).0;
      GrowsTrans(st, prev.0, st');
      assert forall j :: k <= j < |order| ==> order[j] != p;
      assert order[..k] == order[..k - 1] + [p];
    }
  }

  /**
   * Every one of the first k persons of the pool is placed in a session of the active exchange,
   * unless the answers ran out.
   */
  lemma {:induction false} ManualPlaces(cfg: Setting, st: AllocState, order: seq<PersonId>, answers: seq<Answer>, k: nat)
    requires k <= |order| && KeysAgree(cfg, st) && Distinct(order)
    requires forall j :: 0 <= j < |order| ==> order[j] !in st.placement
    ensures var res := ManualPrefix(cfg, st, order, answers, k);
      forall j :: 0 <= j < k ==> res.1 == [] || (order[j] in res.0.placement && InActive(cfg, res.0.placement[order[j]]))
    decreases k
  {
    if k > 0 {
      ManualPlaces(cfg, st, order, answers, k - 1);
      ManualShape(cfg, st, order, answers, k - 1);
      var prev := ManualPrefix(cfg, st, order, answers, k - 1);
      var p := order[k - 1];
      AskForShape(cfg, prev.0, p, prev.1);
      var res := AskFor(cfg, prev.0, p, prev.1);
      if res.1 != [] {
        assert prev.1 != [];
        assert Grows(prev.0, res.0);
      }
    }
  }

  /** The manual phase over the pool keeps the invariant. */
  lemma {:induction false} ManualInv(cfg: Setting, st: AllocState, order: seq<PersonId>, answers: seq<Answer>, k: nat)
    requires k <= |order| && Inv(cfg, st) && Distinct(order)
    requires forall j :: 0 <= j < |order| ==> order[j] in st.random && order[j] !in st.placement
    ensures Inv(cfg, ManualPrefix(cfg, st, order, answers, k).0)
    decreases k
  {
    if k > 0 {
      ManualInv(cfg, st, order, answers, k - 1);
      ManualShape(cfg, st, order, answers, k - 1);
      var prev := ManualPrefix(cfg, st, order, answers, k - 1);
      assert order[k - 1] in prev.0.random && order[k - 1] !in prev.0.placement;
      AskForInv(cfg, prev.0, order[k - 1], prev.1);
    }
  }

  // ------------------------------------------------------------------ the report

  datatype Report = Report(empty: seq<SessionPk>, tooLow: seq<SessionPk>)

  /**
   * The report after the priority pass: a session of the active exchange with nobody assigned is
   * empty; one with somebody assigned but fewer than participants_min placed is too low. Reading
   * the placed count of a session that was never looked up is a KeyError, the Err case.
   */
  function ReportOf(cfg: Setting, st: AllocState, pks: seq<SessionPk>): (r: Result<Report, SessionPk>)
    requires forall i :: 0 <= i < |pks| ==> pks[i] in cfg.sessions
    ensures r.Ok? ==> forall pk :: pk in r.value.empty || pk in r.value.tooLow ==> pk in pks
  {
    if pks == [] then Ok(Report([], []))
    else match ReportOf(cfg, st, pks[..|pks| - 1])
      case Err(pk) => Err(pk)
      case Ok(rep) =>
        var pk := pks[|pks| - 1];
        if Members(st, pk) == {} then Ok(rep.(empty := rep.empty + [pk]))
        else if pk !in st.counts then Err(pk)
        else if cfg.sessions[pk].participantsMin > st.counts[pk] then Ok(rep.(tooLow := rep.tooLow + [pk]))
        else Ok(rep)
  }

  /** For a session of the active exchange, the stored assignments count the run's placements. */
  lemma MembersCount(cfg: Setting, st: AllocState, pk: SessionPk)
    requires Inv(cfg, st) && InActive(cfg, pk)
    ensures |st.members[pk]| == PlacedCount(st, pk)
    ensures pk !in st.counts ==> st.members[pk] == {}
  {
    if pk !in st.counts {
      forall p | p in st.placement ensures st.placement[p] != pk { }
      assert PlacedIn(st, pk) == {};
    }
  }

  /**
   * The report never hits the KeyError, and it lists exactly the active sessions with no
   * placement and exactly those with some placements but fewer than participants_min.
   */
  lemma {:induction false} ReportMeaning(cfg: Setting, st: AllocState, pks: seq<SessionPk>)
    requires Inv(cfg, st) && forall i :: 0 <= i < |pks| ==> InActive(cfg, pks[i])
    ensures ReportOf(cfg, st, pks).Ok?
    ensures forall pk :: pk in ReportOf(cfg, st, pks).value.empty <==> pk in pks && PlacedCount(st, pk) == 0
    ensures forall pk :: pk in ReportOf(cfg, st, pks).value.tooLow <==>
      pk in pks && 0 < PlacedCount(st, pk) < cfg.sessions[pk].participantsMin
  {
    if pks != [] {
      var init := pks[..|pks| - 1];
      var pk := pks[|pks| - 1];
      ReportMeaning(cfg, st, init);
      MembersCount(cfg, st, pk);
      assert forall q :: q in pks <==> q in init || q == pk;
      forall q | q in init ensures InActive(cfg, q) { }
    }
  }

  // ------------------------------------------------------------------ the whole command

  /** The highest priority among the registrations, starting from 1. */
  function MaxPriorityOf(regs: seq<Registration>): (m: int)
    ensures m >= 1
    ensures forall j :: 0 <= j < |regs| ==> regs[j].priority <= m
    ensures m == 1 || exists j :: 0 <= j < |regs| && regs[j].priority == m
  {
    if regs == [] then 1
    else
      var m := MaxPriorityOf(regs[..|regs| - 1]);
      if regs[|regs| - 1].priority > m then regs[|regs| - 1].priority else m
  }

  /** The state after clearing the assignments and marking every requestor unassigned. */
  function AfterMark(cfg: Setting, members: map<SessionPk, set<PersonId>>, regs: seq<Registration>): AllocState
  {
    MarkPrefix(Start(cfg, members), regs, |regs|)
  }

  /** After marking, every requestor is unassigned and nothing is placed or cached. */
  lemma AfterMarkFacts(cfg: Setting, members: map<SessionPk, set<PersonId>>, regs: seq<Registration>)
    requires WellFormed(cfg) && members.Keys == cfg.sessions.Keys
    ensures var st := AfterMark(cfg, members, regs);
      && Partitioned(cfg, st) && st.placement == map[] && st.random == {}
      && st.requestors == RequestorsOf(regs) && st.unassigned == st.requestors
  {
    StartInv(cfg, members);
    MarkInv(cfg, Start(cfg, members), regs, |regs|);
    assert regs[..|regs|] == regs;
  }

  /** The state after clearing, marking and the priority rounds 1..max_priority. */
  function AfterPass(cfg: Setting, members: map<SessionPk, set<PersonId>>, regs: seq<Registration>): AllocState
    requires WellFormed(cfg) && members.Keys == cfg.sessions.Keys && AllKnown(cfg, regs)
  {
    AfterMarkFacts(cfg, members, regs);
    PassUpTo(cfg, AfterMark(cfg, members, regs), regs, MaxPriorityOf(regs))
  }

  /**
   * What the priority pass achieves:
   *  - every requestor is unassigned, in the random pool, or placed, in exactly one of them;
   *  - nobody is placed in a session they did not ask for;
   *  - a requestor still unassigned asked, at every priority, only for sessions that are full.
   */
  lemma PassOutcome(cfg: Setting, members: map<SessionPk, set<PersonId>>, regs: seq<Registration>)
    requires WellFormed(cfg) && members.Keys == cfg.sessions.Keys && AllKnown(cfg, regs)
    ensures var mid := AfterPass(cfg, members, regs);
      && Partitioned(cfg, mid)
      && mid.requestors == RequestorsOf(regs)
      && OnlyRequested(regs, mid)
      && (forall j :: 0 <= j < |regs| && regs[j].priority >= 1 && regs[j].requestor in mid.unassigned ==>
            regs[j].session.Some? && Full(mid, regs[j].session.value))
  {
    var st1 := AfterMark(cfg, members, regs);
    AfterMarkFacts(cfg, members, regs);
    var k := MaxPriorityOf(regs);
    PassInv(cfg, st1, regs, k);
    PassGrows(cfg, st1, regs, k);
    PassRequested(cfg, st1, regs, k);
    PassSettles(cfg, st1, regs, k);
  }

  /** Reporting after the pass never fails, and it names exactly the empty and the under-filled sessions. */
  lemma PassReport(cfg: Setting, members: map<SessionPk, set<PersonId>>, regs: seq<Registration>)
    requires WellFormed(cfg) && members.Keys == cfg.sessions.Keys && AllKnown(cfg, regs)
    ensures var mid := AfterPass(cfg, members, regs);
      && Inv(cfg, mid)
      && ReportOf(cfg, mid, cfg.exchangeSessions).Ok?
      && (forall pk :: pk in ReportOf(cfg, mid, cfg.exchangeSessions).value.empty <==> InActive(cfg, pk) && PlacedCount(mid, pk) == 0)
      && (forall pk :: pk in ReportOf(cfg, mid, cfg.exchangeSessions).value.tooLow <==>
            InActive(cfg, pk) && 0 < PlacedCount(mid, pk) < cfg.sessions[pk].participantsMin)
  {
    AfterMarkFacts(cfg, members, regs);
    PassInv(cfg, AfterMark(cfg, members, regs), regs, MaxPriorityOf(regs));
    ReportMeaning(cfg, AfterPass(cfg, members, regs), cfg.exchangeSessions);
  }

  /**
   * After the manual phase over the random pool (in the order it was filled), the invariant still
   * holds, the pass's placements are unchanged, and every pool member sits in a session of the
   * active exchange unless the answers ran out.
   */
  lemma ManualOutcome(cfg: Setting, mid: AllocState, answers: seq<Answer>)
    requires Partitioned(cfg, mid)
    ensures var (fin, rest) := ManualPrefix(cfg, mid, mid.randomOrder, answers, |mid.randomOrder|);
      && Inv(cfg, fin) && Grows(mid, fin)
      && fin.requestors == mid.requestors && fin.unassigned == mid.unassigned
      && (forall p :: p in mid.random ==> rest == [] || (p in fin.placement && InActive(cfg, fin.placement[p])))
      && (forall p :: p in fin.placement ==> p in mid.placement || p in mid.random)
  {
    var order := mid.randomOrder;
    forall j | 0 <= j < |order| ensures order[j] in mid.random && order[j] !in mid.placement {
      assert order[j] in order;
      assert Inv(cfg, mid);
      assert forall p :: p in mid.random <==> p in mid.randomOrder;
      assert order[j] in mid.random;
      assert order[j] !in mid.placement.Keys;
    }
    ManualInv(cfg, mid, order, answers, |order|);
    ManualShape(cfg, mid, order, answers, |order|);
    ManualPlaces(cfg, mid, order, answers, |order|);
    assert order[..|order|] == order;
    var (fin, rest) := ManualPrefix(cfg, mid, order, answers, |order|);
    forall p | p in mid.random ensures rest == [] || (p in fin.placement && InActive(cfg, fin.placement[p])) {
      var j :| 0 <= j < |order| && order[j] == p;
    }
  }

  /** First come, first served: two requests of the same priority for a one-seat session, the earlier one wins. */
  lemma EarlierRequestWins()
    ensures var cfg := Setting(7, map[1 := Session(1, 7, 1, 1, 1)], [1]);
      var regs := [Registration(10, 7, Some(1), 1, 100, "", ""), Registration(20, 7, Some(1), 1, 200, "", "")];
      var mid := AfterPass(cfg, map[1 := {30}], regs);
      && mid.placement == map[10 := 1]
      && mid.unassigned == {20}
      && 1 in mid.members && mid.members[1] == {10}
  {
    var cfg := Setting(7, map[1 := Session(1, 7, 1, 1, 1)], [1]);
    var regs := [Registration(10, 7, Some(1), 1, 100, "", ""), Registration(20, 7, Some(1), 1, 200, "", "")];
    var st0 := Start(cfg, map[1 := {30}]);
    assert st0.members == map[1 := {}];
    var st1 := AfterMark(cfg, map[1 := {30}], regs);
    assert MarkPrefix(st0, regs, 1) == st0.(requestors := {10}, unassigned := {10});
    assert st1 == st0.(requestors := {10, 20}, unassigned := {10, 20});
    var st2 := RoundPrefix(cfg, st1, regs, 1, 1);
    assert st2.placement == map[10 := 1] && st2.unassigned == {20} && st2.capacities == map[1 := 0];
    assert RoundPrefix(cfg, st1, regs, 1, 2) == st2;
  }

  // ------------------------------------------------------------------ running the command again

  /** The whole command: the priority pass, then the manual phase over the pool in the order it was filled. */
  function AfterRun(cfg: Setting, members: map<SessionPk, set<PersonId>>, regs: seq<Registration>, answers: seq<Answer>): AllocState
    requires WellFormed(cfg) && members.Keys == cfg.sessions.Keys && AllKnown(cfg, regs)
  {
    var mid := AfterPass(cfg, members, regs);
    ManualPrefix(cfg, mid, mid.randomOrder, answers, |mid.randomOrder|).0
  }

  /** Everything the allocator keeps but the assigned relations, which it writes and never reads. */
  function Bookkeeping(st: AllocState): AllocState
  {
    st.(members := map[])
  }

  /** Each assigned relation is the one the run started from plus the run's placements in that session. */
  ghost predicate Tracks(base: map<SessionPk, set<PersonId>>, st: AllocState)
  {
    && st.members.Keys == base.Keys
    && forall pk :: pk in base ==> st.members[pk] == base[pk] + PlacedIn(st, pk)
  }

  lemma PlaceTracks(cfg: Setting, base: map<SessionPk, set<PersonId>>, st: AllocState, p: PersonId, pk: SessionPk, remove: bool)
    requires KeysAgree(cfg, st) && pk in st.capacities && p !in st.placement
    requires Tracks(base, st) && base.Keys == cfg.sessions.Keys
    ensures Tracks(base, Place(cfg, st, p, pk, remove))
  {
    forall q | q in base
      ensures Place(cfg, st, p, pk, remove).members[q] == base[q] + PlacedIn(Place(cfg, st, p, pk, remove), q)
    {
      PlacedInAfterPlace(cfg, st, p, pk, remove, q);
    }
  }

  lemma CacheTracks(cfg: Setting, base: map<SessionPk, set<PersonId>>, st: AllocState, pk: SessionPk)
    requires KeysAgree(cfg, st) && pk in cfg.sessions && Tracks(base, st)
    ensures Tracks(base, CacheCapacity(cfg, st, pk))
  {
    var st1 := CacheCapacity(cfg, st, pk);
    assert forall q :: PlacedIn(st1, q) == PlacedIn(st, q);
  }

  lemma CacheBookkeeping(cfg: Setting, s: AllocState, t: AllocState, pk: SessionPk)
    requires KeysAgree(cfg, s) && KeysAgree(cfg, t) && pk in cfg.sessions && Bookkeeping(s) == Bookkeeping(t)
    ensures Bookkeeping(CacheCapacity(cfg, s, pk)) == Bookkeeping(CacheCapacity(cfg, t, pk))
    ensures CacheCapacity(cfg, s, pk).members == s.members
  {
    assert s.capacities == t.capacities && s.counts == t.counts;
  }

  lemma PlaceBookkeeping(cfg: Setting, s: AllocState, t: AllocState, p: PersonId, pk: SessionPk, remove: bool)
    requires KeysAgree(cfg, s) && KeysAgree(cfg, t) && pk in s.capacities && Bookkeeping(s) == Bookkeeping(t)
    ensures Bookkeeping(Place(cfg, s, p, pk, remove)) == Bookkeeping(Place(cfg, t, p, pk, remove))
  {
    assert s.capacities == t.capacities && s.counts == t.counts && s.unassigned == t.unassigned;
    assert s.placement == t.placement;
  }

  /** attempt_placement reads only the bookkeeping. */
  lemma AttemptBookkeeping(cfg: Setting, s: AllocState, t: AllocState, r: Registration)
    requires KeysAgree(cfg, s) && KeysAgree(cfg, t) && SessionKnown(cfg, r) && Bookkeeping(s) == Bookkeeping(t)
    ensures Bookkeeping(Attempt(cfg, s, r)) == Bookkeeping(Attempt(cfg, t, r))
  {
    var p := r.requestor;
    assert s.unassigned == t.unassigned;
    if p in t.unassigned {
      match r.session {
        case None =>
          assert s.random == t.random && s.randomOrder == t.randomOrder;
        case Some(pk) =>
          CacheBookkeeping(cfg, s, t, pk);
          var s1 := CacheCapacity(cfg, s, pk);
          var t1 := CacheCapacity(cfg, t, pk);
          assert s1.capacities == t1.capacities;
          if t1.capacities[pk] > 0 {
            PlaceBookkeeping(cfg, s1, t1, p, pk, true);
          }
      }
    }
  }

  /** attempt_placement adds a person to a session's assigned relation exactly when it places them there. */
  lemma AttemptTracks(cfg: Setting, base: map<SessionPk, set<PersonId>>, t: AllocState, r: Registration)
    requires Partitioned(cfg, t) && SessionKnown(cfg, r) && Tracks(base, t) && base.Keys == cfg.sessions.Keys
    ensures Tracks(base, Attempt(cfg, t, r))
  {
    var p := r.requestor;
    if p in t.unassigned {
      match r.session {
        case None =>
          var t' := Attempt(cfg, t, r);
          assert t'.members == t.members;
          assert forall q :: PlacedIn(t', q) == PlacedIn(t, q);
        case Some(pk) =>
          CacheTracks(cfg, base, t, pk);
          var t1 := CacheCapacity(cfg, t, pk);
          if t1.capacities[pk] > 0 {
            PlaceTracks(cfg, base, t1, p, pk, true);
          }
      }
    }
  }

  lemma {:induction false} RoundRerun(cfg: Setting, base: map<SessionPk, set<PersonId>>, s: AllocState, t: AllocState, regs: seq<Registration>, priority: int, i: nat)
    requires i <= |regs| && AllKnown(cfg, regs) && KeysAgree(cfg, s) && Partitioned(cfg, t)
    requires Bookkeeping(s) == Bookkeeping(t) && Tracks(base, t) && base.Keys == cfg.sessions.Keys
    ensures Bookkeeping(RoundPrefix(cfg, s, regs, priority, i)) == Bookkeeping(RoundPrefix(cfg, t, regs, priority, i))
    ensures Tracks(base, RoundPrefix(cfg, t, regs, priority, i))
    decreases i
  {
    if i > 0 {
      RoundRerun(cfg, base, s, t, regs, priority, i - 1);
      RoundInv(cfg, t, regs, priority, i - 1);
      if regs[i - 1].priority == priority {
        AttemptBookkeeping(cfg, RoundPrefix(cfg, s, regs, priority, i - 1), RoundPrefix(cfg, t, regs, priority, i - 1), regs[i - 1]);
        AttemptTracks(cfg, base, RoundPrefix(cfg, t, regs, priority, i - 1), regs[i - 1]);
      }
    }
  }

  lemma {:induction false} PassRerun(cfg: Setting, base: map<SessionPk, set<PersonId>>, s: AllocState, t: AllocState, regs: seq<Registration>, k: nat)
    requires AllKnown(cfg, regs) && KeysAgree(cfg, s) && Partitioned(cfg, t)
    requires Bookkeeping(s) == Bookkeeping(t) && Tracks(base, t) && base.Keys == cfg.sessions.Keys
    ensures Bookkeeping(PassUpTo(cfg, s, regs, k)) == Bookkeeping(PassUpTo(cfg, t, regs, k))
    ensures Tracks(base, PassUpTo(cfg, t, regs, k))
    decreases k
  {
    if k > 0 {
      PassRerun(cfg, base, s, t, regs, k - 1);
      PassInv(cfg, t, regs, k - 1);
      RoundRerun(cfg, base, PassUpTo(cfg, s, regs, k - 1), PassUpTo(cfg, t, regs, k - 1), regs, k, |regs|);
    }
  }

  /** assign_random reads only the bookkeeping and the answers, and assigns p exactly where it places p. */
  lemma {:induction false} AskForRerun(cfg: Setting, base: map<SessionPk, set<PersonId>>, s: AllocState, t: AllocState, p: PersonId, answers: seq<Answer>)
    requires KeysAgree(cfg, s) && KeysAgree(cfg, t) && p !in t.placement
    requires Bookkeeping(s) == Bookkeeping(t) && Tracks(base, t) && base.Keys == cfg.sessions.Keys
    ensures Bookkeeping(AskFor(cfg, s, p, answers).0) == Bookkeeping(AskFor(cfg, t, p, answers).0)
    ensures AskFor(cfg, s, p, answers).1 == AskFor(cfg, t, p, answers).1
    ensures Tracks(base, AskFor(cfg, t, p, answers).0)
    decreases |answers|
  {
    if answers != [] {
      match answers[0] {
        case NotANumber =>
          AskForRerun(cfg, base, s, t, p, answers[1..]);
        case Typed(pk) =>
          if pk !in cfg.sessions {
            AskForRerun(cfg, base, s, t, p, answers[1..]);
          } else {
            CacheTracks(cfg, base, t, pk);
            CacheBookkeeping(cfg, s, t, pk);
            var s1 := CacheCapacity(cfg, s, pk);
            var t1 := CacheCapacity(cfg, t, pk);
            assert s1.capacities == t1.capacities;
            if t1.capacities[pk] <= 0 || cfg.sessions[pk].exchange != cfg.exchange {
              AskForRerun(cfg, base, s1, t1, p, answers[1..]);
            } else {
              PlaceTracks(cfg, base, t1, p, pk, false);
              PlaceBookkeeping(cfg, s1, t1, p, pk, false);
            }
          }
      }
    }
  }

  lemma {:induction false} ManualRerun(cfg: Setting, base: map<SessionPk, set<PersonId>>, s: AllocState, t: AllocState, order: seq<PersonId>, answers: seq<Answer>, k: nat)
    requires k <= |order| && KeysAgree(cfg, s) && KeysAgree(cfg, t) && Distinct(order)
    requires forall j :: 0 <= j < |order| ==> order[j] !in t.placement
    requires Bookkeeping(s) == Bookkeeping(t) && Tracks(base, t) && base.Keys == cfg.sessions.Keys
    ensures Bookkeeping(ManualPrefix(cfg, s, order, answers, k).0) == Bookkeeping(ManualPrefix(cfg, t, order, answers, k).0)
    ensures ManualPrefix(cfg, s, order, answers, k).1 == ManualPrefix(cfg, t, order, answers, k).1
    ensures Tracks(base, ManualPrefix(cfg, t, order, answers, k).0)
    decreases k
  {
    if k > 0 {
      ManualRerun(cfg, base, s, t, order, answers, k - 1);
      ManualShape(cfg, t, order, answers, k - 1);
      var ps := ManualPrefix(cfg, s, order, answers, k - 1);
      var pt := ManualPrefix(cfg, t, order, answers, k - 1);
      AskForRerun(cfg, base, ps.0, pt.0, order[k - 1], pt.1);
    }
  }

  lemma {:induction false} MarkRerun(s: AllocState, t: AllocState, regs: seq<Registration>, i: nat)
    requires i <= |regs| && Bookkeeping(s) == Bookkeeping(t)
    ensures Bookkeeping(MarkPrefix(s, regs, i)) == Bookkeeping(MarkPrefix(t, regs, i))
    ensures MarkPrefix(t, regs, i) == Bookkeeping(MarkPrefix(t, regs, i)).(members := t.members)
    decreases i
  {
    if i > 0 {
      MarkRerun(s, t, regs, i - 1);
    }
  }

  /**
   * The priority pass from two different assigned relations: the bookkeeping comes out the same,
   * and every assigned relation is the cleared one plus the pass's placements in that session.
   */
  lemma PassFromAny(cfg: Setting, m: map<SessionPk, set<PersonId>>, m': map<SessionPk, set<PersonId>>, regs: seq<Registration>)
    requires WellFormed(cfg) && m.Keys == cfg.sessions.Keys && m'.Keys == cfg.sessions.Keys && AllKnown(cfg, regs)
    ensures Bookkeeping(AfterPass(cfg, m, regs)) == Bookkeeping(AfterPass(cfg, m', regs))
    ensures Tracks(Cleared(m, cfg.exchangeSessions), AfterPass(cfg, m, regs))
  {
    var base := Cleared(m, cfg.exchangeSessions);
    var a := AfterMark(cfg, m, regs);
    var a' := AfterMark(cfg, m', regs);
    AfterMarkFacts(cfg, m, regs);
    MarkRerun(Start(cfg, m'), Start(cfg, m), regs, |regs|);
    assert forall q :: PlacedIn(a, q) == {};
    PassRerun(cfg, base, a', a, regs, MaxPriorityOf(regs));
  }

  /** The whole command from two different assigned relations, with the same answers typed. */
  lemma RunFromAny(cfg: Setting, m: map<SessionPk, set<PersonId>>, m': map<SessionPk, set<PersonId>>, regs: seq<Registration>, answers: seq<Answer>)
    requires WellFormed(cfg) && m.Keys == cfg.sessions.Keys && m'.Keys == cfg.sessions.Keys && AllKnown(cfg, regs)
    ensures Bookkeeping(AfterRun(cfg, m, regs, answers)) == Bookkeeping(AfterRun(cfg, m', regs, answers))
    ensures Tracks(Cleared(m, cfg.exchangeSessions), AfterRun(cfg, m, regs, answers))
  {
    var base := Cleared(m, cfg.exchangeSessions);
    PassFromAny(cfg, m, m', regs);
    PassOutcome(cfg, m, regs);
    var mid := AfterPass(cfg, m, regs);
    var mid' := AfterPass(cfg, m', regs);
    var order := mid.randomOrder;
    assert mid'.randomOrder == order;
    assert Partitioned(cfg, mid);
    assert Inv(cfg, mid);
    assert PeopleInv(mid);
    assert forall p :: p in mid.randomOrder ==> p in mid.random;
    forall j | 0 <= j < |order| ensures order[j] !in mid.placement {
      assert order[j] in order;
      assert order[j] in mid.random;
    }
    ManualRerun(cfg, base, mid', mid, order, answers, |order|);
  }

  /**
   * Idempotence of the priority pass: running it again on the assignments it produced, with the
   * same registrations, gives the same state. The sessions of the active exchange are cleared
   * and refilled identically, and every other session already holds what the run adds to it.
   */
  lemma PassIdempotent(cfg: Setting, m: map<SessionPk, set<PersonId>>, regs: seq<Registration>)
    requires WellFormed(cfg) && m.Keys == cfg.sessions.Keys && AllKnown(cfg, regs)
    ensures AfterPass(cfg, m, regs).members.Keys == cfg.sessions.Keys
    ensures AfterPass(cfg, AfterPass(cfg, m, regs).members, regs) == AfterPass(cfg, m, regs)
  {
    var e := AfterPass(cfg, m, regs);
    PassFromAny(cfg, m, m, regs);
    var m1 := e.members;
    PassFromAny(cfg, m1, m, regs);
    var e1 := AfterPass(cfg, m1, regs);
    SameMembers(cfg, m, m1, e, e1);
  }

  /**
   * Idempotence of the whole command: running it again on the assignments it produced, with the
   * same registrations and the same answers typed, gives the same state.
   */
  lemma RunIdempotent(cfg: Setting, m: map<SessionPk, set<PersonId>>, regs: seq<Registration>, answers: seq<Answer>)
    requires WellFormed(cfg) && m.Keys == cfg.sessions.Keys && AllKnown(cfg, regs)
    ensures AfterRun(cfg, m, regs, answers).members.Keys == cfg.sessions.Keys
    ensures AfterRun(cfg, AfterRun(cfg, m, regs, answers).members, regs, answers) == AfterRun(cfg, m, regs, answers)
  {
    var e := AfterRun(cfg, m, regs, answers);
    RunFromAny(cfg, m, m, regs, answers);
    var m1 := e.members;
    RunFromAny(cfg, m1, m, regs, answers);
    var e1 := AfterRun(cfg, m1, regs, answers);
    SameMembers(cfg, m, m1, e, e1);
  }

  /** A run from the assignments a run produced: both end with the same bookkeeping, hence the same state. */
  lemma SameMembers(cfg: Setting, m: map<SessionPk, set<PersonId>>, m1: map<SessionPk, set<PersonId>>, e: AllocState, e1: AllocState)
    requires WellFormed(cfg) && m.Keys == cfg.sessions.Keys
    requires Tracks(Cleared(m, cfg.exchangeSessions), e) && m1 == e.members
    requires Tracks(Cleared(m1, cfg.exchangeSessions), e1) && Bookkeeping(e1) == Bookkeeping(e)
    ensures e1 == e
  {
    var c := Cleared(m, cfg.exchangeSessions);
    var c1 := Cleared(m1, cfg.exchangeSessions);
    assert forall q :: PlacedIn(e1, q) == PlacedIn(e, q) by {
      assert e1.placement == e.placement;
    }
    forall pk | pk in cfg.sessions ensures e1.members[pk] == e.members[pk] {
      if pk in cfg.exchangeSessions {
        assert c1[pk] == {} && c[pk] == {};
      }
    }
    assert e1 == Bookkeeping(e1).(members := e1.members);
  }

  // ------------------------------------------------------------------ the command, updating its state in place

  /** The loop in handle that finds the highest priority. */
  method MaxPriority(regs: seq<Registration>) returns (m: int)
    ensures m == MaxPriorityOf(regs)
  {
    m := 1;
    for i := 0 to |regs|
      invariant m == MaxPriorityOf(regs[..i])
    {
      assert regs[..i + 1][..i] == regs[..i];
      if regs[i].priority > m {
        m := regs[i].priority;
      }
    }
    assert regs[..|regs|] == regs;
  }

  class Allocator {
    const cfg: Setting
    var requestors: set<PersonId>
    var unassigned: set<PersonId>
    var random: set<PersonId>
    var randomOrder: seq<PersonId>
    var capacities: map<SessionPk, int>
    var counts: map<SessionPk, int>
    /** The assigned relation of every session in the store. */
    var members: map<SessionPk, set<PersonId>>
    /** Which session each person was placed in during this run. */
    ghost var placement: map<PersonId, SessionPk>

    ghost function State(): AllocState
      reads this
    {
      AllocState(requestors, unassigned, random, randomOrder, capacities, counts, members, placement)
    }

    constructor(cfg: Setting, members: map<SessionPk, set<PersonId>>)
      ensures this.cfg == cfg
      ensures State() == AllocState({}, {}, {}, [], map[], map[], members, map[])
    {
      this.cfg := cfg;
      requestors, unassigned, random, randomOrder := {}, {}, {}, [];
      capacities, counts := map[], map[];
      this.members := members;
      placement := map[];
    }

    /** Empties the assignments of every session of the active exchange. */
    method ClearAssignments()
      modifies this
      ensures State() == old(State()).(members := Cleared(old(members), cfg.exchangeSessions))
    {
      var pks := cfg.exchangeSessions;
      for i := 0 to |pks|
        invariant State() == old(State()).(members := Cleared(old(members), pks[..i]))
      {
        assert pks[..i + 1][..i] == pks[..i];
        members := members[pks[i] := {}];
      }
      assert pks[..|pks|] == pks;
    }

    /** Marks every requestor as such and as unassigned. */
    method MarkRequestors(regs: seq<Registration>)
      modifies this
      ensures State() == MarkPrefix(old(State()), regs, |regs|)
    {
      for i := 0 to |regs|
        invariant State() == MarkPrefix(old(State()), regs, i)
      {
        requestors := requestors + {regs[i].requestor};
        unassigned := unassigned + {regs[i].requestor};
      }
    }

    /** get_capacity */
    method GetCapacity(pk: SessionPk) returns (c: int)
      requires pk in cfg.sessions && KeysAgree(cfg, State())
      modifies this
      ensures State() == CacheCapacity(cfg, old(State()), pk)
      ensures c == capacities[pk]
    {
      if pk !in capacities {
        var session := cfg.sessions[pk];
        capacities := capacities[pk := session.participantsMax * session.sessionCount];
        counts := counts[pk := 0];
      }
      c := capacities[pk];
    }

    /** perform_placement; removing a person that is not unassigned would be a KeyError. */
    method PerformPlacement(p: PersonId, pk: SessionPk, remove: bool)
      requires KeysAgree(cfg, State()) && pk in capacities
      requires remove ==> p in unassigned
      modifies this
      ensures State() == Place(cfg, old(State()), p, pk, remove)
    {
      capacities := capacities[pk := capacities[pk] - 1];
      counts := counts[pk := counts[pk] + 1];
      if remove {
        unassigned := unassigned - {p};
      }
      members := members[pk := (if pk in members then members[pk] else {}) + {p}];
      assert members[pk] == Members(old(State()), pk) + {p};
      placement := placement[p := pk];
    }

    /** attempt_placement */
    method AttemptPlacement(r: Registration)
      requires KeysAgree(cfg, State()) && SessionKnown(cfg, r)
      modifies this
      ensures State() == Attempt(cfg, old(State()), r)
    {
      var p := r.requestor;
      if p !in unassigned {
        return;
      }
      match r.session {
        case None =>
          if p !in random {
            randomOrder := randomOrder + [p];
          }
          random := random + {p};
          unassigned := unassigned - {p};
        case Some(pk) =>
          var c := GetCapacity(pk);
          if c > 0 {
            PerformPlacement(p, pk, true);
          }
      }
    }

    /** The rounds for priorities 1..maxPriority, each over the registrations in date_time order. */
    method PriorityPass(regs: seq<Registration>, maxPriority: nat)
      requires KeysAgree(cfg, State()) && AllKnown(cfg, regs)
      modifies this
      ensures State() == PassUpTo(cfg, old(State()), regs, maxPriority)
    {
      for priority := 1 to maxPriority + 1
        invariant KeysAgree(cfg, State())
        invariant State() == PassUpTo(cfg, old(State()), regs, priority - 1)
      {
        ghost var before := State();
        for i := 0 to |regs|
          invariant KeysAgree(cfg, State())
          invariant State() == RoundPrefix(cfg, before, regs, priority, i)
        {
          if regs[i].priority == priority {
            AttemptPlacement(regs[i]);
          }
        }
      }
    }

    /** The empty and the under-filled sessions of the active exchange. */
    method ReportSessions() returns (r: Result<Report, SessionPk>)
      requires forall i :: 0 <= i < |cfg.exchangeSessions| ==> cfg.exchangeSessions[i] in cfg.sessions
      ensures r == ReportOf(cfg, State(), cfg.exchangeSessions)
    {
      var pks := cfg.exchangeSessions;
      var empty: seq<SessionPk>, tooLow: seq<SessionPk> := [], [];
      for i := 0 to |pks|
        invariant ReportOf(cfg, State(), pks[..i]) == Ok(Report(empty, tooLow))
      {
        assert pks[..i + 1][..i] == pks[..i];
        var pk := pks[i];
        if pk !in members || members[pk] == {} {
          empty := empty + [pk];
        } else if pk !in counts {
          r := Err(pk);
          assert ReportOf(cfg, State(), pks[..i + 1]) == r;
          ReportErrSticks(cfg, State(), pks, i + 1);
          return;
        } else if cfg.sessions[pk].participantsMin > counts[pk] {
          tooLow := tooLow + [pk];
        }
      }
      assert pks[..|pks|] == pks;
      r := Ok(Report(empty, tooLow));
    }

    /** assign_random: asks until an answer is accepted, then places p without touching the unassigned set. */
    method AssignRandom(p: PersonId, answers: seq<Answer>) returns (rest: seq<Answer>)
      requires KeysAgree(cfg, State())
      modifies this
      ensures (State(), rest) == AskFor(cfg, old(State()), p, answers)
    {
      var i := 0;
      while i < |answers|
        invariant 0 <= i <= |answers| && KeysAgree(cfg, State())
        invariant AskFor(cfg, State(), p, answers[i..]) == AskFor(cfg, old(State()), p, answers)
      {
        var a := answers[i];
        assert answers[i..][1..] == answers[i + 1..];
        i := i + 1;
        if a.Typed? && a.pk in cfg.sessions {
          var c := GetCapacity(a.pk);
          if c > 0 && cfg.sessions[a.pk].exchange == cfg.exchange {
            PerformPlacement(p, a.pk, false);
            return answers[i..];
          }
        }
      }
      return [];
    }

    /**
     * handle up to the report: clear, mark, and the rounds for priorities 1..max_priority, over the
     * active exchange's registrations ordered by date_time.
     */
    method RunPass(regs: seq<Registration>)
      requires WellFormed(cfg) && members.Keys == cfg.sessions.Keys && AllKnown(cfg, regs)
      requires InQueryOrder(cfg, regs)
      requires State() == AllocState({}, {}, {}, [], map[], map[], members, map[])
      modifies this
      ensures State() == AfterPass(cfg, old(members), regs)
    {
      ClearAssignments();
      assert State() == Start(cfg, old(members));
      MarkRequestors(regs);
      assert State() == AfterMark(cfg, old(members), regs);
      AfterMarkFacts(cfg, old(members), regs);
      var maxPriority := MaxPriority(regs);
      PriorityPass(regs, maxPriority);
    }

    /** The loop over the random pool at the end of handle; all persons share one stream of answers. */
    method AssignPool(pool: seq<PersonId>, answers: seq<Answer>)
      requires KeysAgree(cfg, State())
      modifies this
      ensures State() == ManualPrefix(cfg, old(State()), pool, answers, |pool|).0
    {
      var rest := answers;
      for k := 0 to |pool|
        invariant KeysAgree(cfg, State())
        invariant (State(), rest) == ManualPrefix(cfg, old(State()), pool, answers, k)
      {
        rest := AssignRandom(pool[k], rest);
      }
    }

    /**
     * handle, from an allocator that has done nothing yet, over the active exchange's registrations
     * ordered by date_time: the priority pass, the report, then the manual phase over the random
     * pool in the order it was filled. Running it again on the assignments it leaves, with the same
     * answers, leaves the same state (RunIdempotent).
     */
    method Handle(regs: seq<Registration>, answers: seq<Answer>) returns (report: Result<Report, SessionPk>)
      requires WellFormed(cfg) && members.Keys == cfg.sessions.Keys && AllKnown(cfg, regs)
      requires InQueryOrder(cfg, regs)
      requires State() == AllocState({}, {}, {}, [], map[], map[], members, map[])
      modifies this
      ensures var mid := AfterPass(cfg, old(members), regs);
        && report == ReportOf(cfg, mid, cfg.exchangeSessions)
        && State() == ManualPrefix(cfg, mid, mid.randomOrder, answers, |mid.randomOrder|).0
      ensures Inv(cfg, State()) && report.Ok?
      ensures State() == AfterRun(cfg, old(members), regs, answers)
    {
      RunPass(regs);
      ghost var mid := State();
      PassOutcome(cfg, old(members), regs);
      PassReport(cfg, old(members), regs);
      report := ReportSessions();
      AssignPool(randomOrder, answers);
      ManualOutcome(cfg, mid, answers);
    }
  }

  lemma {:induction false} ReportErrSticks(cfg: Setting, st: AllocState, pks: seq<SessionPk>, i: nat)
    requires i <= |pks| && forall j :: 0 <= j < |pks| ==> pks[j] in cfg.sessions
    requires ReportOf(cfg, st, pks[..i]).Err?
    ensures ReportOf(cfg, st, pks) == ReportOf(cfg, st, pks[..i])
    decreases |pks| - i
  {
    if i < |pks| {
      assert pks[..i + 1][..i] == pks[..i];
      ReportErrSticks(cfg, st, pks, i + 1);
    } else {
      assert pks[..i] == pks;
    }
  }
}
