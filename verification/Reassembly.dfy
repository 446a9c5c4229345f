/**
  Reassembly of IPv4 fragments (Sources/fnet_stack/stack/fnet_ip.c): a list of incomplete datagrams, each
  with its fragments on a ring from the lowest offset.  `nb` names the netbuf chain a fragment came in.
 */
module Reassembly {
  import opened Words
  import opened Wrappers
  import opened IpFragments

  /** A held fragment.  The more-fragments flag is kept in the low bit of the type of service, which it overlays. */
  datatype Frag = Frag(hlen: nat, tos: byte, offset: Short, payload: seq<byte>, nb: nat)

  /** An incomplete datagram: its fragments in ring order from the head. */
  datatype FragList = FragList(ttl: nat, key: Key, frags: seq<Frag>)

  /** A datagram handed up: its header fields, bytes, and the chains it is made of. */
  datatype Datagram = Datagram(hlen: nat, tos: byte, total: nat, key: Key, payload: seq<byte>, nbs: seq<nat>)

  // ----- what a ring of fragments means

  function Payloads(frags: seq<Frag>): seq<byte> {
    if frags == [] then [] else Payloads(frags[..|frags| - 1]) + frags[|frags| - 1].payload
  }

  function Chains(frags: seq<Frag>): seq<nat> {
    if frags == [] then [] else Chains(frags[..|frags| - 1]) + [frags[|frags| - 1].nb]
  }

  /** Each fragment begins where those before it end. */
  predicate Contiguous(frags: seq<Frag>) {
    forall i :: 0 <= i < |frags| ==> frags[i].offset == |Payloads(frags[..i])|
  }

  predicate Complete(frags: seq<Frag>) {
    frags != [] && Contiguous(frags) && frags[|frags| - 1].tos % 2 == 0
  }

  ghost predicate SortedBy(frags: seq<Frag>) {
    forall i, j :: 0 <= i < j < |frags| ==> frags[i].offset <= frags[j].offset
  }

  /** A fragment that belongs before or after all those held. */
  predicate Outside(frags: seq<Frag>, offset: nat) {
    frags != [] && (offset < frags[0].offset || frags[|frags| - 1].offset <= offset)
  }

  /** The ring with a fragment hung on between its tail and its head. */
  function Hang(frags: seq<Frag>, f: Frag): seq<Frag> {
    if frags != [] && f.offset < frags[0].offset then [f] + frags else frags + [f]
  }

  lemma HangSorted(frags: seq<Frag>, f: Frag)
    requires SortedBy(frags) && (frags == [] || Outside(frags, f.offset))
    ensures SortedBy(Hang(frags, f))
  {}

  /** The header of a fragment, as the reassembly list keeps it. */
  function Held(p: Packet, nb: nat): Frag {
    Frag(p.hlen, if HasMF(p.ffo) && p.tos % 2 == 0 then p.tos + 1 else p.tos, OffsetOf(p.ffo), p.payload, nb)
  }

  /** A length, as the 16-bit field of the header takes it. */
  function Low16(n: nat): (r: Short)
    ensures (n - r) % 0x1_0000 == 0
  {
    n % 0x1_0000
  }

  /** The mask `& ~1`. */
  function Even(b: byte): (r: byte)
    ensures r % 2 == 0 && b - 1 <= r <= b
  {
    b - b % 2
  }

  /** What is handed up of a complete ring. */
  function Whole(key: Key, frags: seq<Frag>): Datagram
    requires frags != []
  {
    Datagram(frags[0].hlen, Even(frags[0].tos), Low16(frags[0].hlen + |Payloads(frags)|),
             key, Payloads(frags), Chains(frags))
  }

  // ----- the incomplete datagrams

  function Find(lists: seq<FragList>, key: Key): (i: nat)
    ensures i <= |lists| && (i < |lists| ==> lists[i].key == key)
    ensures forall j :: 0 <= j < i ==> lists[j].key != key
  {
    if lists == [] || lists[0].key == key then 0 else 1 + Find(lists[1..], key)
  }

  /** The chains held in the lists. */
  function HeldChains(lists: seq<FragList>): multiset<nat> {
    if lists == [] then multiset{} else HeldChains(lists[..|lists| - 1]) + multiset(Chains(lists[|lists| - 1].frags))
  }

  /** The fragments held of the datagram a packet belongs to, with that packet. */
  function NewRing(lists: seq<FragList>, p: Packet, nb: nat): seq<Frag> {
    var i := Find(lists, p.key);
    Hang(if i < |lists| then lists[i].frags else [], Held(p, nb))
  }

  /** Whether there is memory for a packet: to make its chain contiguous, and for a list if it begins one. */
  predicate Room(lists: seq<FragList>, p: Packet, pulled: bool, listMemory: bool) {
    pulled && (Find(lists, p.key) == |lists| ==> listMemory)
  }

  /** Where the list of a packet's datagram is once the packet is held. */
  function Slot(lists: seq<FragList>, key: Key): nat {
    if Find(lists, key) < |lists| then Find(lists, key) else 0
  }

  /** The lists with a packet held. */
  function Hung(lists: seq<FragList>, p: Packet, nb: nat): (r: seq<FragList>) {
    var i, ring := Find(lists, p.key), NewRing(lists, p, nb);
    if i < |lists| then lists[i := lists[i].(frags := ring)] else [FragList(FRAG_TTL, p.key, ring)] + lists
  }

  /** The lists once a packet is held and, if that completes its datagram, the datagram has gone up. */
  function Arrived(lists: seq<FragList>, p: Packet, nb: nat): seq<FragList> {
    var i := Find(lists, p.key);
    if !Complete(NewRing(lists, p, nb)) then Hung(lists, p, nb)
    else if i < |lists| then lists[..i] + lists[i + 1..]
    else lists
  }

  /** The lists after a timer tick. */
  function Aged(lists: seq<FragList>): seq<FragList>
    requires forall i :: 0 <= i < |lists| ==> 0 < lists[i].ttl
  {
    if lists == [] then []
    else
      var l := lists[|lists| - 1];
      Aged(lists[..|lists| - 1]) + if l.ttl == 1 then [] else [l.(ttl := l.ttl - 1)]
  }

  /** The chains of the lists that die at a timer tick. */
  function Expired(lists: seq<FragList>): multiset<nat> {
    if lists == [] then multiset{}
    else
      var l := lists[|lists| - 1];
      Expired(lists[..|lists| - 1]) + if l.ttl == 1 then multiset(Chains(l.frags)) else multiset{}
  }

  ghost predicate ListOk(l: FragList) {
    0 < l.ttl <= FRAG_TTL && l.frags != [] && SortedBy(l.frags)
  }

  ghost predicate ListsOk(lists: seq<FragList>) {
    && (forall i :: 0 <= i < |lists| ==> ListOk(lists[i]))
    && (forall i, j :: 0 <= i < j < |lists| ==> lists[i].key != lists[j].key)
  }

  /** A fragment is hung on the ring of list `i`. */
  lemma HangOk(lists: seq<FragList>, i: nat, f: Frag)
    requires ListsOk(lists) && i < |lists| && Outside(lists[i].frags, f.offset)
    ensures ListsOk(lists[i := lists[i].(frags := Hang(lists[i].frags, f))])
  {
    HangSorted(lists[i].frags, f);
  }

  /** A list is begun with a fragment of a new datagram. */
  lemma NewOk(lists: seq<FragList>, key: Key, f: Frag)
    requires ListsOk(lists) && Find(lists, key) == |lists|
    ensures ListsOk([FragList(FRAG_TTL, key, [f])] + lists) && Hang([], f) == [f]
  {}

  lemma RemoveOk(lists: seq<FragList>, i: nat)
    requires ListsOk(lists) && i < |lists|
    ensures ListsOk(lists[..i] + lists[i + 1..])
  {}

  lemma ListNonEmpty(lists: seq<FragList>, i: nat)
    requires ListsOk(lists) && i < |lists|
    ensures lists[i].frags != [] && SortedBy(lists[i].frags)
  {}

  lemma HangNonEmpty(frags: seq<Frag>, f: Frag)
    ensures Hang(frags, f) != []
  {}

  /** Outside those held, a fragment's place is at the head or past the tail. */
  lemma PlaceOutside(frags: seq<Frag>, offset: nat, k: nat)
    requires SortedBy(frags) && Outside(frags, offset) && k <= |frags|
    requires k < |frags| ==> offset < frags[k].offset
    requires forall i :: 0 <= i < k ==> frags[i].offset <= offset
    ensures k == 0 || k == |frags|
  {}

  // ----- where the chains go

  lemma HeldMore(a: seq<FragList>, l: FragList)
    ensures HeldChains(a + [l]) == HeldChains(a) + multiset(Chains(l.frags))
  {
    assert (a + [l])[..|a|] == a;
  }

  lemma {:induction false} HeldJoin(a: seq<FragList>, b: seq<FragList>)
    ensures HeldChains(a + b) == HeldChains(a) + HeldChains(b)
  {
    hide HeldChains, Chains;
    NoChains();
    if b == [] {
      assert a + b == a;
    } else {
      var n := |b| - 1;
      assert b == b[..n] + [b[n]] && a + b == (a + b[..n]) + [b[n]];
      HeldMore(b[..n], b[n]);
      HeldMore(a + b[..n], b[n]);
      HeldJoin(a, b[..n]);
    }
  }

  lemma {:induction false} ChainsJoin(a: seq<Frag>, b: seq<Frag>)
    ensures Chains(a + b) == Chains(a) + Chains(b)
  {
    if b == [] {
      assert a + b == a;
    } else {
      ChainsJoin(a, b[..|b| - 1]);
      assert (a + b)[..|a + b| - 1] == a + b[..|b| - 1];
    }
  }

  lemma HangChains(frags: seq<Frag>, f: Frag)
    ensures multiset(Chains(Hang(frags, f))) == multiset(Chains(frags)) + multiset{f.nb}
  {
    ChainsJoin([f], frags);
    ChainsJoin(frags, [f]);
    assert Chains([f]) == [f.nb];
  }

  lemma HeldOne(l: FragList)
    ensures HeldChains([l]) == multiset(Chains(l.frags))
  {}

  /** The chains held, seen from list `i`. */
  lemma HeldAround(lists: seq<FragList>, i: nat)
    requires i < |lists|
    ensures HeldChains(lists) == HeldChains(lists[..i] + lists[i + 1..]) + multiset(Chains(lists[i].frags))
  {
    hide HeldChains, Chains;
    assert lists == lists[..i] + ([lists[i]] + lists[i + 1..]);
    HeldJoin(lists[..i], [lists[i]] + lists[i + 1..]);
    HeldJoin([lists[i]], lists[i + 1..]);
    HeldJoin(lists[..i], lists[i + 1..]);
    HeldOne(lists[i]);
  }

  lemma HeldReplaced(lists: seq<FragList>, i: nat, l: FragList)
    requires i < |lists|
    ensures HeldChains(lists[i := l]) == HeldChains(lists[..i] + lists[i + 1..]) + multiset(Chains(l.frags))
  {
    hide HeldChains, Chains;
    HeldAround(lists[i := l], i);
    assert lists[i := l][..i] == lists[..i] && lists[i := l][i + 1..] == lists[i + 1..];
  }

  /** The chain of a packet that finds room is held, or goes up with the others of its datagram. */
  lemma ArrivedAccounts(lists: seq<FragList>, p: Packet, nb: nat)
    ensures HeldChains(Arrived(lists, p, nb)) + GoneUp(lists, p, nb) == HeldChains(lists) + multiset{nb}
  {
    hide HeldChains, Chains, Complete, Hang, Find;
    var i, ring := Find(lists, p.key), NewRing(lists, p, nb);
    var frags := if i < |lists| then lists[i].frags else [];
    HangChains(frags, Held(p, nb));
    NoChains();
    if i < |lists| {
      HeldAround(lists, i);
      HeldReplaced(lists, i, lists[i].(frags := ring));
    } else {
      HeldJoin([FragList(FRAG_TTL, p.key, ring)], lists);
      HeldOne(FragList(FRAG_TTL, p.key, ring));
    }
  }

  /** The chains that a packet's arrival sends up. */
  function GoneUp(lists: seq<FragList>, p: Packet, nb: nat): multiset<nat> {
    var ring := NewRing(lists, p, nb);
    if Complete(ring) then multiset(Chains(ring)) else multiset{}
  }

  /** The list of a packet's datagram, once the packet is held. */
  lemma HungAt(lists: seq<FragList>, p: Packet, nb: nat)
    ensures var i, hung := Slot(lists, p.key), Hung(lists, p, nb);
            && i < |hung| && hung[i].frags == NewRing(lists, p, nb) && NewRing(lists, p, nb) != []
            && Arrived(lists, p, nb) == (if Complete(NewRing(lists, p, nb)) then hung[..i] + hung[i + 1..] else hung)
  {
    hide Complete, Held, Find;
  }

  /** A packet that arrives outside those held of its datagram keeps the lists in order. */
  lemma HungOk(lists: seq<FragList>, p: Packet, nb: nat)
    requires ListsOk(lists)
    requires var i := Find(lists, p.key); i < |lists| ==> Outside(lists[i].frags, OffsetOf(p.ffo))
    ensures ListsOk(Hung(lists, p, nb)) && ListsOk(Arrived(lists, p, nb))
  {
    hide ListsOk, Complete, Held, Hang, Outside, OffsetOf, Find, Slot;
    var i := Find(lists, p.key);
    HeldOffset(p, nb);
    if i < |lists| {
      HangOk(lists, i, Held(p, nb));
      RemoveOk(lists, i);
    } else {
      NewOk(lists, p.key, Held(p, nb));
    }
  }

  lemma HeldOffset(p: Packet, nb: nat)
    ensures Held(p, nb).offset == OffsetOf(p.ffo)
  {}

  /** Every chain taken is held, freed or handed up, as often as it was taken. */
  ghost predicate Accounted(taken: multiset<nat>, lists: seq<FragList>, freed: multiset<nat>, returned: multiset<nat>) {
    taken == HeldChains(lists) + freed + returned
  }

  lemma AccountsMove(taken: multiset<nat>, lists: seq<FragList>, freed: multiset<nat>, returned: multiset<nat>, nb: nat)
    requires Accounted(taken, lists, freed, returned)
    ensures Accounted(taken + multiset{nb}, lists, freed + multiset{nb}, returned)
    ensures forall p: Packet :: Accounted(taken + multiset{nb}, Arrived(lists, p, nb), freed, returned + GoneUp(lists, p, nb))
  {
    hide HeldChains, Arrived, GoneUp;
    forall p: Packet ensures Accounted(taken + multiset{nb}, Arrived(lists, p, nb), freed, returned + GoneUp(lists, p, nb)) {
      ArrivedAccounts(lists, p, nb);
      var held, out := HeldChains(Arrived(lists, p, nb)), GoneUp(lists, p, nb);
      assert HeldChains(lists) + freed + returned + multiset{nb} == (HeldChains(lists) + multiset{nb}) + freed + returned;
      assert held + freed + (returned + out) == (held + out) + freed + returned;
    }
  }

  lemma AccountsAge(taken: multiset<nat>, lists: seq<FragList>, freed: multiset<nat>, returned: multiset<nat>)
    requires Accounted(taken, lists, freed, returned) && forall i :: 0 <= i < |lists| ==> 0 < lists[i].ttl
    ensures Accounted(taken, Aged(lists), freed + Expired(lists), returned)
  {
    hide HeldChains, Aged, Expired;
    AgedAccounts(lists, |lists|);
    assert lists[..|lists|] == lists;
  }

  lemma NoChains()
    ensures Chains([]) == [] && HeldChains([]) == multiset{}
  {}

  lemma AgedMore(lists: seq<FragList>, n: nat)
    requires n < |lists| && forall i :: 0 <= i < |lists| ==> 0 < lists[i].ttl
    ensures var l := lists[n];
            && Aged(lists[..n + 1]) == Aged(lists[..n]) + (if l.ttl == 1 then [] else [l.(ttl := l.ttl - 1)])
            && Expired(lists[..n + 1]) == Expired(lists[..n]) + (if l.ttl == 1 then multiset(Chains(l.frags)) else multiset{})
            && HeldChains(lists[..n + 1]) == HeldChains(lists[..n]) + multiset(Chains(l.frags))
  {
    hide Chains;
    assert lists[..n + 1][..n] == lists[..n];
  }

  lemma AgedNone(lists: seq<FragList>)
    ensures lists[..0] == [] && lists[0..] == lists && Aged([]) == [] && Expired([]) == multiset{} && HeldChains([]) == multiset{}
  {}

  /** A walk that has aged the first lists stands at the next one. */
  lemma AgedStands(lists: seq<FragList>, n: nat, i: nat, aged: seq<FragList>, x: FragList)
    requires n < |lists| && i <= |aged| && aged[..i] + lists[n..] == aged
    ensures i < |aged| && aged[i] == lists[n] && aged[..i] + aged[i + 1..] == aged[..i] + lists[n + 1..]
    ensures aged[i := x] == aged[..i] + [x] + lists[n + 1..]
  {
    assert aged[i] == lists[n..][0];
    assert aged[i + 1..] == lists[n + 1..];
  }

  /** Ticks free the chains of the lists that die and no others. */
  lemma {:induction false} AgedAccounts(lists: seq<FragList>, n: nat)
    requires n <= |lists| && forall i :: 0 <= i < |lists| ==> 0 < lists[i].ttl
    ensures HeldChains(Aged(lists[..n])) + Expired(lists[..n]) == HeldChains(lists[..n])
  {
    hide Chains, Aged, Expired, HeldChains;
    AgedNone(lists);

    if n > 0 {
      var l := lists[n - 1];
      AgedAccounts(lists, n - 1);
      AgedMore(lists, n - 1);
      if l.ttl > 1 {
        HeldJoin(Aged(lists[..n - 1]), [l.(ttl := l.ttl - 1)]);
        HeldOne(l.(ttl := l.ttl - 1));
      } else {
        assert Aged(lists[..n]) == Aged(lists[..n - 1]);
      }
    }
  }

  /** A list after ageing is one from before, a tick younger. */
  lemma {:induction false} AgedFrom(lists: seq<FragList>, k: nat) returns (i: nat)
    requires forall i :: 0 <= i < |lists| ==> 0 < lists[i].ttl
    requires k < |Aged(lists)|
    ensures i < |lists| && k <= i && lists[i] == Aged(lists)[k].(ttl := Aged(lists)[k].ttl + 1) && 0 < Aged(lists)[k].ttl
  {
    var front := Aged(lists[..|lists| - 1]);
    if k < |front| {
      i := AgedFrom(lists[..|lists| - 1], k);
    } else {
      i := |lists| - 1;
      AgedShort(lists[..|lists| - 1]);
    }
  }

  lemma AgedShort(lists: seq<FragList>)
    requires forall i :: 0 <= i < |lists| ==> 0 < lists[i].ttl
    ensures |Aged(lists)| <= |lists|
  {}

  lemma {:induction false} AgedOk(lists: seq<FragList>)
    requires ListsOk(lists)
    ensures forall i :: 0 <= i < |lists| ==> 0 < lists[i].ttl
    ensures ListsOk(Aged(lists))
    ensures forall k :: 0 <= k < |Aged(lists)| ==> exists i :: 0 <= i < |lists| && lists[i].key == Aged(lists)[k].key
  {
    if lists != [] {
      AgedOk(lists[..|lists| - 1]);
    }
  }

  class Reassembler {
    var lists: seq<FragList>
    /** The chains handed in so far, and those of them freed and handed up. */
    ghost var taken: multiset<nat>
    ghost var freed: multiset<nat>
    ghost var returned: multiset<nat>

    /** One list a datagram, each sorted and alive; and every chain taken is held, freed or handed up. */
    ghost predicate Valid()
      reads this
    {
      ListsOk(lists) && Accounted(taken, lists, freed, returned)
    }

    constructor ()
      ensures Valid() && lists == [] && taken == multiset{}
    {
      lists, taken, freed, returned := [], multiset{}, multiset{}, multiset{};
    }

    /** The completeness check: walks the ring and compares offsets. */
    method IsComplete(frags: seq<Frag>) returns (b: bool)
      requires frags != []
      ensures b <==> Complete(frags)
    {
      var offset, k := 0, 0;
      while k < |frags|
        invariant 0 <= k <= |frags| && offset == |Payloads(frags[..k])|
        invariant forall i :: 0 <= i < k ==> frags[i].offset == |Payloads(frags[..i])|
      {
        if frags[k].offset != offset {
          return false;
        }
        assert frags[..k + 1][..k] == frags[..k];
        offset := offset + |frags[k].payload|;
        k := k + 1;
      }
      return frags[|frags| - 1].tos % 2 == 0;
    }

    /** Concatenating the fragments of a complete ring. */
    method Join(key: Key, frags: seq<Frag>) returns (d: Datagram)
      requires frags != []
      ensures d == Whole(key, frags)
    {
      var payload, nbs := frags[0].payload, [frags[0].nb];
      var k := 1;
      assert frags[..1][..0] == [] && Payloads([]) == [] && Chains([]) == [];
      while k < |frags|
        invariant 1 <= k <= |frags| && payload == Payloads(frags[..k]) && nbs == Chains(frags[..k])
      {
        assert frags[..k + 1][..k] == frags[..k];
        payload, nbs := payload + frags[k].payload, nbs + [frags[k].nb];
        k := k + 1;
      }
      assert frags[..k] == frags;
      d := Datagram(frags[0].hlen, Even(frags[0].tos), Low16(frags[0].hlen + |payload|), key, payload, nbs);
    }

    /** The search for the datagram a fragment belongs to. */
    method FindList(key: Key) returns (i: nat)
      ensures i == Find(lists, key)
    {
      i := 0;
      FindFrom(lists, key, 0);
      while i < |lists| && lists[i].key != key
        invariant 0 <= i <= |lists| && Find(lists, key) == i + Find(lists[i..], key)
      {
        FindFrom(lists, key, i);
        i := i + 1;
      }
    }

    /** The search for a fragment's place on the ring: the first one that begins later, or none. */
    method FindPlace(frags: seq<Frag>, offset: nat) returns (k: nat)
      requires frags != []
      ensures k <= |frags| && (k < |frags| ==> offset < frags[k].offset)
      ensures forall i :: 0 <= i < k ==> frags[i].offset <= offset
    {
      k := 0;
      while k < |frags| && frags[k].offset <= offset
        invariant k <= |frags| && forall i :: 0 <= i < k ==> frags[i].offset <= offset
      {
        k := k + 1;
      }
    }

    /** Holds a packet: begins a list for it, or hangs it on the ring of its datagram. */
    method Hold(p: Packet, nb: nat, i: nat)
      requires ListsOk(lists) && i == Find(lists, p.key)
      requires i < |lists| ==> Outside(lists[i].frags, OffsetOf(p.ffo))
      modifies `lists
      ensures lists == Hung(old(lists), p, nb)
    {
      hide Held, OffsetOf, ListsOk, Hang, Find, SortedBy, Outside;
      var frag := Held(p, nb);
      HeldOffset(p, nb);
      if i == |lists| {
        NewOk(lists, p.key, frag);
        lists := [FragList(FRAG_TTL, p.key, [frag])] + lists;
      } else {
        ListNonEmpty(lists, i);
        var k := FindPlace(lists[i].frags, frag.offset);
        // Only a place at the head or past the tail is reached, so nothing is trimmed.
        PlaceOutside(lists[i].frags, frag.offset, k);
        lists := lists[i := lists[i].(frags := Hang(lists[i].frags, frag))];
      }
    }

    /**
      fnet_ip_reassembly, for fragments that arrive below or above all those held of their datagram.
      `pulled` and `listMemory` tell whether the two allocations succeed.
     */
    method Input(p: Packet, nb: nat, pulled: bool, listMemory: bool) returns (r: Option<Datagram>)
      requires Valid() && 0 < |p.payload|
      requires var i := Find(lists, p.key); i < |lists| ==> Outside(lists[i].frags, OffsetOf(p.ffo))
      modifies this
      ensures Valid() && taken == old(taken) + multiset{nb}
      ensures !Room(old(lists), p, pulled, listMemory) ==>
                r == None && lists == old(lists) && freed == old(freed) + multiset{nb} && returned == old(returned)
      ensures Room(old(lists), p, pulled, listMemory) ==>
                && lists == Arrived(old(lists), p, nb) && freed == old(freed) && returned == old(returned) + GoneUp(old(lists), p, nb)
                && NewRing(old(lists), p, nb) != []
                && r == if Complete(NewRing(old(lists), p, nb)) then Some(Whole(p.key, NewRing(old(lists), p, nb))) else None
    {
      hide Whole, Complete, Chains, ListsOk, Find, Outside, HeldChains, Hung, NewRing, Arrived, OffsetOf, Accounted, GoneUp;
      AccountsMove(taken, lists, freed, returned, nb);
      taken := taken + multiset{nb};
      var i := FindList(p.key);
      if !pulled || (i == |lists| && !listMemory) {
        freed := freed + multiset{nb};
        return None;
      }
      HungAt(lists, p, nb);
      HungOk(lists, p, nb);
      returned := returned + GoneUp(lists, p, nb);
      var at := if i < |lists| then i else 0;
      Hold(p, nb, i);
      var done := IsComplete(lists[at].frags);
      if !done {
        return None;
      }
      var d := Join(p.key, lists[at].frags);
      lists := lists[..at] + lists[at + 1..];
      r := Some(d);
    }

    /** fnet_ip_frag_list_free, of list `i`: frees its chains one by one, then takes it out. */
    method FreeList(i: nat)
      requires i < |lists|
      modifies `lists, `freed
      ensures lists == old(lists[..i] + lists[i + 1..])
      ensures freed == old(freed) + multiset(Chains(old(lists[i].frags)))
    {
      hide Chains;
      NoChains();
      while lists[i].frags != []
        invariant i < |lists| && lists == old(lists)[i := old(lists[i]).(frags := lists[i].frags)]
        invariant freed + multiset(Chains(lists[i].frags)) == old(freed) + multiset(Chains(old(lists[i].frags)))
        decreases |lists[i].frags|
      {
        var frags := lists[i].frags;
        FirstChain(frags);
        lists := lists[i := lists[i].(frags := frags[1..])];
        freed := freed + multiset{frags[0].nb};
      }
      lists := lists[..i] + lists[i + 1..];
    }

    /** fnet_ip_timer: every list loses a tick of life, and those with none left are freed. */
    method Timer()
      requires Valid()
      modifies `lists, `freed
      ensures Valid() && (forall i :: 0 <= i < |old(lists)| ==> 0 < old(lists)[i].ttl)
      ensures lists == Aged(old(lists)) && freed == old(freed) + Expired(old(lists))
    {
      hide ListsOk, Aged, Expired, HeldChains, Chains, Accounted;
      ghost var start := lists;
      AgedOk(start);
      AccountsAge(taken, start, freed, returned);
      AgedNone(start);
      var i := 0;
      ghost var n := 0;
      while i < |lists|
        invariant n <= |start| && i <= |lists| && lists[..i] == Aged(start[..n]) && lists == lists[..i] + start[n..]
        invariant freed == old(freed) + Expired(start[..n])
        decreases |start| - n
      {
        AgedMore(start, n);
        AgedStands(start, n, i, lists, lists[i].(ttl := lists[i].ttl - 1));
        if lists[i].ttl - 1 == 0 {
          FreeList(i);
        } else {
          lists := lists[i := lists[i].(ttl := lists[i].ttl - 1)];
          i := i + 1;
        }
        n := n + 1;
      }
      assert start[..n] == start;
      assert lists == Aged(start);
    }

    /** The reassembly part of fnet_ip_drain. */
    method Drain()
      requires Valid()
      modifies `lists, `freed
      ensures Valid() && lists == [] && taken == freed + returned
    {
      hide Chains, HeldChains, ListsOk;
      while lists != []
        invariant Valid()
        decreases |lists|
      {
        HeldAround(lists, 0);
        RemoveOk(lists, 0);
        FreeList(0);
      }
      NoChains();
    }
  }

  lemma FindFrom(lists: seq<FragList>, key: Key, i: nat)
    requires i <= |lists|
    ensures lists[0..] == lists
    ensures i < |lists| && lists[i].key != key ==> Find(lists[i..], key) == 1 + Find(lists[i + 1..], key)
    ensures i < |lists| && lists[i].key == key ==> Find(lists[i..], key) == 0
    ensures i == |lists| ==> Find(lists[i..], key) == 0
  {
    assert i < |lists| ==> lists[i..][1..] == lists[i + 1..];
  }

  lemma FirstChain(frags: seq<Frag>)
    requires frags != []
    ensures multiset(Chains(frags)) == multiset{frags[0].nb} + multiset(Chains(frags[1..]))
  {
    assert frags == [frags[0]] + frags[1..];
    ChainsJoin([frags[0]], frags[1..]);
    assert Chains([frags[0]]) == [frags[0].nb];
  }

}
