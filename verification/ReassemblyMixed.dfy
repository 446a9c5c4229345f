/**
  Reassembly of one datagram among whatever else arrives: fragments of other datagrams and timer ticks in
  between make no difference, as long as fewer ticks pass than a list lives.
 */
module ReassemblyMixed {
  import opened Wrappers
  import opened IpFragments
  import opened Reassembly
  import opened ReassemblyRuns
  import opened ReassemblyTime

  /** The list of a datagram, if there is one. */
  ghost function Get(lists: seq<FragList>, key: Key): Option<FragList> {
    var i := Find(lists, key);
    if i < |lists| then Some(lists[i]) else None
  }

  /** With one list a datagram, the list that has the key is the datagram's. */
  lemma GetIs(lists: seq<FragList>, key: Key, i: nat)
    requires ListsOk(lists) && i < |lists| && lists[i].key == key
    ensures Get(lists, key) == Some(lists[i])
  {
    hide ListsOk, Find;
    FindUnique(lists, key, i);
  }

  lemma GetNone(lists: seq<FragList>, key: Key)
    requires forall i :: 0 <= i < |lists| ==> lists[i].key != key
    ensures Get(lists, key) == None
  {
    hide Find;
  }

  // ----- what an event does to one datagram

  /** A packet's arrival leaves the list of another datagram. */
  lemma OtherArrives(lists: seq<FragList>, p: Packet, nb: nat, key: Key)
    requires ListsOk(lists) && key != p.key && ListsOk(Arrived(lists, p, nb))
    ensures Get(Arrived(lists, p, nb), key) == Get(lists, key)
  {
    hide ListsOk, Complete, Hang, Held, Find;
    var i, j, after := Find(lists, key), Find(lists, p.key), Arrived(lists, p, nb);
    var gone := Complete(NewRing(lists, p, nb));
    if i < |lists| {
      var k := if j == |lists| then (if gone then i else i + 1) else if gone && j < i then i - 1 else i;
      GetIs(after, key, k);
    } else {
      GetNone(after, key);
    }
  }

  /** A packet's arrival at its own datagram's list. */
  lemma OwnArrives(lists: seq<FragList>, p: Packet, nb: nat)
    requires ListsOk(lists) && ListsOk(Arrived(lists, p, nb))
    ensures var was, ring := Get(lists, p.key), NewRing(lists, p, nb);
            && ring == Hang(if was.Some? then was.value.frags else [], Held(p, nb))
            && Get(Arrived(lists, p, nb), p.key)
            == if Complete(ring) then None
               else Some(FragList(if was.Some? then was.value.ttl else FRAG_TTL, p.key, ring))
  {
    hide Complete, Hang, Held, Find;
    var i, after, ring := Find(lists, p.key), Arrived(lists, p, nb), NewRing(lists, p, nb);
    if Complete(ring) {
      GetNone(after, p.key);
    } else {
      GetIs(after, p.key, if i < |lists| then i else 0);
    }
  }

  function OneTickOlder(was: Option<FragList>): Option<FragList> {
    if was.None? || was.value.ttl <= 1 then None else Some(was.value.(ttl := was.value.ttl - 1))
  }

  /** A tick ages every list, or takes it. */
  lemma TickAges(lists: seq<FragList>, key: Key)
    requires ListsOk(lists)
    ensures forall i :: 0 <= i < |lists| ==> 0 < lists[i].ttl
    ensures ListsOk(Aged(lists))
    ensures Get(Aged(lists), key) == OneTickOlder(Get(lists, key))
  {
    hide Aged, Find, ListsOk;
    AgedOk(lists);
    var was := Get(lists, key);
    if was.Some? && was.value.ttl > 1 {
      var k := AgedHas(lists, Find(lists, key));
      GetIs(Aged(lists), key, k);
    } else {
      forall k | 0 <= k < |Aged(lists)| ensures Aged(lists)[k].key != key {
        var i := AgedFrom(lists, k);
        if lists[i].key == key {
          GetIs(lists, key, i);
        }
      }
      GetNone(Aged(lists), key);
    }
  }

  // ----- runs

  /** What an event hands up. */
  ghost function Up(lists: seq<FragList>, e: Event): Option<Datagram> {
    if e.Arrive? && Room(lists, e.p, e.pulled, e.listMemory) && Complete(NewRing(lists, e.p, e.nb))
    then Some(Whole(e.p.key, NewRing(lists, e.p, e.nb)))
    else None
  }

  predicate Mine(e: Event, key: Key) {
    e.Arrive? && e.p.key == key
  }

  /** The arrivals of a datagram's fragments, in a run. */
  function Own(es: seq<Event>, key: Key): seq<Event> {
    if es == [] then [] else (if Mine(es[0], key) then [es[0]] else []) + Own(es[1..], key)
  }

  /** What these arrivals hand up. */
  ghost function OwnUps(lists: seq<FragList>, es: seq<Event>, last: seq<FragList>, key: Key): seq<Option<Datagram>>
    requires ListsOk(lists) && Run(lists, es, last)
    decreases |es|
  {
    if es == [] then []
    else (if Mine(es[0], key) then [Up(lists, es[0])] else []) + OwnUps(After(lists, es[0]), es[1..], last, key)
  }

  /** The arrivals of fragments `order[j]` and on, with memory for each. */
  function Deliveries(fs: seq<Packet>, nbs: seq<nat>, order: seq<nat>, j: nat): seq<Event>
    requires |nbs| == |fs| == |order| && j <= |order| && forall k :: 0 <= k < |order| ==> order[k] < |fs|
    decreases |order| - j
  {
    if j == |order| then [] else [Arrive(fs[order[j]], nbs[order[j]], true, true)] + Deliveries(fs, nbs, order, j + 1)
  }

  /** Nothing for each arrival but the last of `n`, and the datagram for that. */
  ghost function LastOf(n: nat, d: Datagram): seq<Option<Datagram>> {
    if n == 0 then [] else if n == 1 then [Some(d)] else [None] + LastOf(n - 1, d)
  }

  /** The fragments with indices `idx` are held of a datagram, with `ttl` ticks to live. */
  ghost predicate Tracks(lists: seq<FragList>, d: Packet, fs: seq<Packet>, nbs: seq<nat>, idx: seq<nat>, ttl: nat)
    requires |nbs| == |fs| && forall k :: 0 <= k < |idx| ==> idx[k] < |fs|
  {
    Get(lists, d.key) == if idx == [] then None else Some(FragList(ttl, d.key, HeldAll(fs, nbs, idx)))
  }

  lemma OwnStep(lists: seq<FragList>, es: seq<Event>, last: seq<FragList>, key: Key)
    requires ListsOk(lists) && Run(lists, es, last) && es != []
    ensures Allowed(lists, es[0]) && ListsOk(After(lists, es[0])) && Run(After(lists, es[0]), es[1..], last)
    ensures Own(es, key) == (if Mine(es[0], key) then [es[0]] else []) + Own(es[1..], key)
    ensures OwnUps(lists, es, last, key)
         == (if Mine(es[0], key) then [Up(lists, es[0])] else []) + OwnUps(After(lists, es[0]), es[1..], last, key)
    ensures Ticks(es) == (if es[0].Tick? then 1 else 0) + Ticks(es[1..])
  {
    hide ListsOk, Allowed, Up, After;
  }

  /** An event that is not an arrival of the datagram's. */
  lemma NotMine(lists: seq<FragList>, e: Event, key: Key)
    requires ListsOk(lists) && Allowed(lists, e) && !Mine(e, key)
    ensures ListsOk(After(lists, e))
    ensures Get(After(lists, e), key) == if e.Tick? then OneTickOlder(Get(lists, key)) else Get(lists, key)
  {
    hide ListsOk, Allowed, Arrived, Aged, Get, Room;
    if e.Tick? {
      TickAges(lists, key);
    } else if Room(lists, e.p, e.pulled, e.listMemory) {
      assert After(lists, e) == Arrived(lists, e.p, e.nb);
      OtherArrives(lists, e.p, e.nb, key);
    }
  }

  /** Without arrivals of its own a datagram that is not there does not come. */
  lemma {:induction false} NoneStays(lists: seq<FragList>, es: seq<Event>, last: seq<FragList>, key: Key)
    requires ListsOk(lists) && Run(lists, es, last) && Own(es, key) == [] && Get(lists, key) == None
    ensures ListsOk(last) && Get(last, key) == None && OwnUps(lists, es, last, key) == []
    decreases |es|
  {
    hide ListsOk, Get, After, Allowed, Up;
    if es != [] {
      OwnStep(lists, es, last, key);
      NotMine(lists, es[0], key);
      NoneStays(After(lists, es[0]), es[1..], last, key);
    }
  }

  lemma DeliveriesStep(fs: seq<Packet>, nbs: seq<nat>, order: seq<nat>, j: nat)
    requires |nbs| == |fs| == |order| && j < |order| && forall k :: 0 <= k < |order| ==> order[k] < |fs|
    ensures Deliveries(fs, nbs, order, j)
         == [Arrive(fs[order[j]], nbs[order[j]], true, true)] + Deliveries(fs, nbs, order, j + 1)
    ensures Deliveries(fs, nbs, order, |order|) == []
  {}

  /** What a fragment's arrival in its turn makes of its datagram's list, and hands up. */
  lemma InTurn(lists: seq<FragList>, d: Packet, fs: seq<Packet>, nbs: seq<nat>, idx: seq<nat>, x: nat, ttl: nat)
    requires ListsOk(lists) && Fragmentation(d, fs) && |nbs| == |fs| && Ascending(idx, |fs|) && x < |fs| && Beside(idx, x)
    requires |idx| < |fs| && (idx == [] ==> ttl == FRAG_TTL) && d.tos % 2 == 0
    requires (forall k :: 0 <= k < |idx| ==> idx[k] < |fs|) && Tracks(lists, d, fs, nbs, idx, ttl)
    requires ListsOk(Arrived(lists, fs[x], nbs[x]))
    ensures fs[x].key == d.key && forall k :: 0 <= k < |AddIndex(idx, x)| ==> AddIndex(idx, x)[k] < |fs|
    ensures var after, up := Arrived(lists, fs[x], nbs[x]), Up(lists, Arrive(fs[x], nbs[x], true, true));
            if |idx| + 1 == |fs|
            then Get(after, d.key) == None && up == Some(Again(d, nbs))
            else up == None && Tracks(after, d, fs, nbs, AddIndex(idx, x), ttl)
  {
    hide ListsOk, Fragmentation, Ascending, Beside, AddIndex, HasMF, OffsetOf, Held, HeldAll, Hang, Complete, Whole, Get, Arrived, NewRing, Low16;
    PieceAt(d, fs, x);
    HangIndex(d, fs, nbs, idx, x);
    EmptyRing(fs, nbs, idx);
    EmptyRing(fs, nbs, []);
    DoneIffLast(d, fs, nbs, AddIndex(idx, x), |idx| + 1);
    OwnArrives(lists, fs[x], nbs[x]);
  }

  /** The datagram as it is handed up. */
  ghost function Again(d: Packet, nbs: seq<nat>): Datagram {
    Datagram(HEADER, d.tos, Low16(HEADER + |d.payload|), d.key, d.payload, nbs)
  }

  /** From `j` fragments held on, the others arriving in any such order among other events. */
  lemma {:induction false} MixedFrom(lists: seq<FragList>, es: seq<Event>, last: seq<FragList>, d: Packet, fs: seq<Packet>, nbs: seq<nat>,
                                     order: seq<nat>, idx: seq<nat>, j: nat, ttl: nat)
    requires ListsOk(lists) && Run(lists, es, last) && Fragmentation(d, fs) && |nbs| == |fs| == |order| && OutsideOrder(order)
    requires d.tos % 2 == 0 && j < |order| && HeldIndices(idx, order, j) && Ascending(idx, |fs|)
    requires (forall k :: 0 <= k < |idx| ==> idx[k] < |fs|) && Tracks(lists, d, fs, nbs, idx, ttl)
    requires (forall k :: 0 <= k < |order| ==> order[k] < |fs|) && Own(es, d.key) == Deliveries(fs, nbs, order, j)
    requires Ticks(es) < ttl && (idx == [] ==> ttl == FRAG_TTL)
    ensures ListsOk(last) && Get(last, d.key) == None
    ensures OwnUps(lists, es, last, d.key) == LastOf(|order| - j, Again(d, nbs))
    decreases |es|
  {
    hide ListsOk, Fragmentation, OutsideOrder, Ascending, HeldIndices, AddIndex, Beside, HeldAll, Get, Arrived, Allowed, Room, Up, Again, Deliveries, Run, OwnUps, Own, Ticks;
    DeliveriesStep(fs, nbs, order, j);
    NothingOwn(es, d.key);
    OwnStep(lists, es, last, d.key);
    var e, x := es[0], order[j];
    if Mine(e, d.key) {
      HeadsMatch(e, Own(es[1..], d.key), Arrive(fs[x], nbs[x], true, true), Deliveries(fs, nbs, order, j + 1));
      AlwaysRoom(lists, fs[x]);
      AddIndexOk(idx, order, j);
      AscendingCount(idx, order, j);
      InTurn(lists, d, fs, nbs, idx, x, ttl);
      if j + 1 == |order| {
        NoneStays(After(lists, e), es[1..], last, d.key);
      } else {
        HangIndex(d, fs, nbs, idx, x);
        MixedFrom(After(lists, e), es[1..], last, d, fs, nbs, order, AddIndex(idx, x), j + 1, ttl);
      }
    } else {
      NotMine(lists, e, d.key);
      assert [] + Own(es[1..], d.key) == Own(es[1..], d.key);
      MixedFrom(After(lists, e), es[1..], last, d, fs, nbs, order, idx, j, if e.Tick? && idx != [] then ttl - 1 else ttl);
    }
  }

  lemma NothingOwn(es: seq<Event>, key: Key)
    requires Own(es, key) != []
    ensures es != []
  {}

  lemma HeadsMatch(e: Event, es: seq<Event>, f: Event, fs: seq<Event>)
    requires [e] + es == [f] + fs
    ensures e == f && es == fs
  {
    assert ([e] + es)[0] == e && ([e] + es)[1..] == es;
    assert ([f] + fs)[0] == f && ([f] + fs)[1..] == fs;
  }

  lemma AlwaysRoom(lists: seq<FragList>, p: Packet)
    ensures Room(lists, p, true, true)
  {}

  lemma AscendingCount(idx: seq<nat>, order: seq<nat>, j: nat)
    requires HeldIndices(idx, order, j)
    ensures |idx| == j
  {}

  /**
    The fragments of a datagram, arriving once each in any order in which each comes below or above those
    before, among any other packets and fewer ticks than a list lives: the last one hands up the datagram and
    the others nothing.  It holds of every datagram of a run at once.
   */
  lemma Mixed(lists: seq<FragList>, es: seq<Event>, last: seq<FragList>, d: Packet, fs: seq<Packet>, nbs: seq<nat>, order: seq<nat>)
    requires ListsOk(lists) && Run(lists, es, last) && Get(lists, d.key) == None && Ticks(es) < 20
    requires Fragmentation(d, fs) && |nbs| == |fs| == |order| && OutsideOrder(order) && d.tos % 2 == 0
    requires Own(es, d.key) == Deliveries(fs, nbs, order, 0)
    ensures ListsOk(last) && Get(last, d.key) == None
    ensures OwnUps(lists, es, last, d.key) == LastOf(|fs|, Again(d, nbs))
  {
    hide ListsOk, Fragmentation, HeldIndices, Get, Run, Deliveries, OwnUps, Own, Ticks, Again;
    NonEmpty(d, fs);
    StartIndices(order);
    MixedFrom(lists, es, last, d, fs, nbs, order, [], 0, FRAG_TTL);
  }

  /** A fragment in its turn is always one that comes below or above those held. */
  lemma TurnAllowed(lists: seq<FragList>, d: Packet, fs: seq<Packet>, nbs: seq<nat>, order: seq<nat>, idx: seq<nat>, j: nat, ttl: nat)
    requires Fragmentation(d, fs) && |nbs| == |fs| == |order| && OutsideOrder(order) && j < |order| && HeldIndices(idx, order, j)
    requires (forall k :: 0 <= k < |idx| ==> idx[k] < |fs|) && Tracks(lists, d, fs, nbs, idx, ttl)
    ensures order[j] < |fs| && Allowed(lists, Arrive(fs[order[j]], nbs[order[j]], true, true))
  {
    hide Fragmentation, OutsideOrder, AddIndex, Beside, HeldAll, Outside, OffsetOf, HasMF, Find;
    AddIndexOk(idx, order, j);
    HangIndex(d, fs, nbs, idx, order[j]);
    PieceAt(d, fs, order[j]);
  }

  /** The events of a run, one after the other, with what each hands up. */
  ghost function Ups(lists: seq<FragList>, es: seq<Event>, last: seq<FragList>): seq<Option<Datagram>>
    requires ListsOk(lists) && Run(lists, es, last)
    decreases |es|
  {
    if es == [] then [] else [Up(lists, es[0])] + Ups(After(lists, es[0]), es[1..], last)
  }

  /** One event on the reassembler itself. */
  method One(r: Reassembler, e: Event) returns (out: Option<Datagram>)
    requires r.Valid() && Allowed(r.lists, e)
    modifies r
    ensures r.Valid() && r.lists == After(old(r.lists), e) && out == Up(old(r.lists), e)
  {
    hide ListsOk, Accounted, Arrived, Aged, Outside, OffsetOf, Find, NewRing, Complete, Whole, Room, GoneUp, Expired;
    out := None;
    match e
    case Arrive(p, nb, pulled, listMemory) =>
      out := r.Input(p, nb, pulled, listMemory);
    case Tick =>
      r.Timer();
  }

  /** A run on the reassembler. */
  method Play(r: Reassembler, es: seq<Event>, ghost last: seq<FragList>) returns (outs: seq<Option<Datagram>>)
    requires r.Valid() && Run(r.lists, es, last)
    modifies r
    ensures r.Valid() && r.lists == last && outs == Ups(old(r.lists), es, last)
  {
    hide ListsOk, Accounted, Run, Ups, Up, Allowed, Arrived, Aged, After;
    outs := [];
    var k := 0;
    RunStart(r.lists, es, last);
    while k < |es|
      invariant k <= |es| && r.Valid() && Run(r.lists, es[k..], last)
      invariant outs + Ups(r.lists, es[k..], last) == Ups(old(r.lists), es, last)
    {
      ghost var lists := r.lists;
      RunStep(lists, es, last, k);
      var out := One(r, es[k]);
      outs := outs + [out];
      k := k + 1;
    }
    RunEnd(r.lists, es, last, k);
  }

  lemma RunStart(lists: seq<FragList>, es: seq<Event>, last: seq<FragList>)
    requires ListsOk(lists) && Run(lists, es, last)
    ensures es[0..] == es && forall us :: us == Ups(lists, es, last) ==> [] + us == us
  {}

  lemma RunStep(lists: seq<FragList>, es: seq<Event>, last: seq<FragList>, k: nat)
    requires ListsOk(lists) && k < |es| && Run(lists, es[k..], last)
    ensures Allowed(lists, es[k]) && ListsOk(After(lists, es[k])) && Run(After(lists, es[k]), es[k + 1..], last)
    ensures forall outs :: outs + Ups(lists, es[k..], last) == outs + [Up(lists, es[k])] + Ups(After(lists, es[k]), es[k + 1..], last)
  {
    hide ListsOk, Arrived, Aged, Up, Find, Outside, OffsetOf, After;
    assert es[k..][1..] == es[k + 1..];
  }

  lemma RunEnd(lists: seq<FragList>, es: seq<Event>, last: seq<FragList>, k: nat)
    requires ListsOk(lists) && k == |es| && Run(lists, es[k..], last)
    ensures lists == last && Ups(lists, es[k..], last) == []
  {}
}
