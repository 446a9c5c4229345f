/** Reassembly over whole runs of arrivals and timer ticks: what dies of age, and what can never complete. */
module ReassemblyTime {
  import opened IpFragments
  import opened Reassembly

  datatype Event = Arrive(p: Packet, nb: nat, pulled: bool, listMemory: bool) | Tick

  /** Packets carry something, and come below or above those held of their datagram. */
  predicate Allowed(lists: seq<FragList>, e: Event) {
    e.Arrive? ==>
      var i := Find(lists, e.p.key);
      0 < |e.p.payload| && (i < |lists| ==> Outside(lists[i].frags, OffsetOf(e.p.ffo)))
  }

  /** What Input and Timer make of the lists. */
  ghost function After(lists: seq<FragList>, e: Event): (r: seq<FragList>)
    requires ListsOk(lists) && Allowed(lists, e)
    ensures ListsOk(r)
  {
    match e
    case Arrive(p, nb, pulled, listMemory) =>
      HungOk(lists, p, nb);
      if Room(lists, p, pulled, listMemory) then Arrived(lists, p, nb) else lists
    case Tick =>
      AgedOk(lists);
      Aged(lists)
  }

  ghost predicate Run(lists: seq<FragList>, es: seq<Event>, last: seq<FragList>)
    requires ListsOk(lists)
    decreases |es|
  {
    if es == [] then last == lists
    else Allowed(lists, es[0]) && Run(After(lists, es[0]), es[1..], last)
  }

  function Ticks(es: seq<Event>): nat {
    if es == [] then 0 else (if es[0].Tick? then 1 else 0) + Ticks(es[1..])
  }

  // ----- every chain leaves in time

  /** The lists that hold chain `nb` have at most `b` ticks to live. */
  ghost predicate Within(lists: seq<FragList>, nb: nat, b: int) {
    forall i :: 0 <= i < |lists| && nb in Chains(lists[i].frags) ==> lists[i].ttl <= b
  }

  lemma HangHas(frags: seq<Frag>, f: Frag, nb: nat)
    requires nb != f.nb
    ensures nb in Chains(Hang(frags, f)) <==> nb in Chains(frags)
  {
    HangChains(frags, f);
    assert nb in Chains(Hang(frags, f)) <==> nb in multiset(Chains(Hang(frags, f)));
    assert nb in Chains(frags) <==> nb in multiset(Chains(frags));
  }

  lemma HeldNb(p: Packet, nb: nat)
    ensures Held(p, nb).nb == nb
  {}

  lemma ArrivedWithin(lists: seq<FragList>, p: Packet, n: nat, nb: nat, b: int)
    requires ListsOk(lists) && Within(lists, nb, b) && n != nb
    ensures Within(Arrived(lists, p, n), nb, b)
  {
    hide Complete, Held, Hang, Chains, Find, ListsOk;
    var i := Find(lists, p.key);
    HeldNb(p, n);
    NoChains();
    HangHas(if i < |lists| then lists[i].frags else [], Held(p, n), nb);
  }

  lemma AgedWithin(lists: seq<FragList>, nb: nat, b: int)
    requires ListsOk(lists) && Within(lists, nb, b)
    ensures forall i :: 0 <= i < |lists| ==> 0 < lists[i].ttl
    ensures Within(Aged(lists), nb, b - 1)
  {
    hide Aged, Chains;
    forall k | 0 <= k < |Aged(lists)| && nb in Chains(Aged(lists)[k].frags) ensures Aged(lists)[k].ttl <= b - 1 {
      var i := AgedFrom(lists, k);
    }
  }

  lemma {:induction false} RunWithin(lists: seq<FragList>, es: seq<Event>, last: seq<FragList>, nb: nat, b: int)
    requires ListsOk(lists) && Run(lists, es, last) && Within(lists, nb, b)
    requires forall k :: 0 <= k < |es| && es[k].Arrive? ==> es[k].nb != nb
    ensures ListsOk(last) && Within(last, nb, b - Ticks(es))
    decreases |es|
  {
    hide ListsOk, Within, Aged, Arrived, Allowed, Room;
    if es != [] {
      if es[0].Tick? {
        AgedWithin(lists, nb, b);
      } else {
        ArrivedWithin(lists, es[0].p, es[0].nb, nb, b);
      }
      RunWithin(After(lists, es[0]), es[1..], last, nb, b - if es[0].Tick? then 1 else 0);
    }
  }

  lemma {:induction false} NotHeld(lists: seq<FragList>, nb: nat)
    requires forall i :: 0 <= i < |lists| ==> nb !in Chains(lists[i].frags)
    ensures nb !in HeldChains(lists)
  {
    hide Chains;
    if lists != [] {
      NotHeld(lists[..|lists| - 1], nb);
    }
  }

  /** Whatever else arrives, a chain is no longer held after 20 ticks. */
  lemma GoneInTime(lists: seq<FragList>, es: seq<Event>, last: seq<FragList>, nb: nat)
    requires ListsOk(lists) && Run(lists, es, last)
    requires forall k :: 0 <= k < |es| && es[k].Arrive? ==> es[k].nb != nb
    requires Ticks(es) >= 20
    ensures nb !in HeldChains(last)
  {
    hide Chains, Run;
    RunWithin(lists, es, last, nb, FRAG_TTL);
    NotHeld(last, nb);
  }

  // ----- what can never complete

  /** Two neighbours on a ring that leave a gap or overlap. */
  ghost predicate Broken(frags: seq<Frag>) {
    exists i :: 0 <= i < |frags| - 1 && BrokenAt(frags, i)
  }

  ghost predicate BrokenAt(frags: seq<Frag>, i: nat) {
    i + 1 < |frags| && frags[i + 1].offset != frags[i].offset + |frags[i].payload|
  }

  lemma BrokenIncomplete(frags: seq<Frag>)
    requires Broken(frags)
    ensures !Complete(frags)
  {
    var i :| 0 <= i < |frags| - 1 && BrokenAt(frags, i);
    assert frags[..i + 1][..i] == frags[..i];
  }

  lemma HangBroken(frags: seq<Frag>, f: Frag)
    requires Broken(frags)
    ensures Broken(Hang(frags, f))
  {
    var i :| 0 <= i < |frags| - 1 && BrokenAt(frags, i);
    if frags != [] && f.offset < frags[0].offset {
      assert BrokenAt([f] + frags, i + 1);
    } else {
      assert BrokenAt(frags + [f], i);
    }
  }

  /** A repeat of the last fragment held breaks the ring. */
  lemma RepeatBreaks(frags: seq<Frag>, f: Frag)
    requires frags != [] && f.offset == frags[|frags| - 1].offset && 0 < |frags[|frags| - 1].payload| && SortedBy(frags)
    ensures Outside(frags, f.offset) && Broken(Hang(frags, f))
  {
    assert frags[0].offset <= f.offset;
    assert BrokenAt(frags + [f], |frags| - 1);
  }

  /** The datagram `key` waits, broken, with `ttl` ticks to live. */
  ghost predicate Waits(lists: seq<FragList>, key: Key, ttl: int) {
    var i := Find(lists, key);
    i < |lists| && lists[i].ttl == ttl && Broken(lists[i].frags)
  }

  lemma {:induction false} FindUnique(lists: seq<FragList>, key: Key, i: nat)
    requires ListsOk(lists) && i < |lists| && lists[i].key == key
    ensures Find(lists, key) == i
  {}

  lemma ArrivedWaits(lists: seq<FragList>, p: Packet, nb: nat, key: Key, ttl: int)
    requires ListsOk(lists) && Waits(lists, key, ttl)
    requires var i := Find(lists, p.key); i < |lists| ==> Outside(lists[i].frags, OffsetOf(p.ffo))
    ensures ListsOk(Arrived(lists, p, nb)) && Waits(Arrived(lists, p, nb), key, ttl)
    ensures p.key == key ==> !Complete(NewRing(lists, p, nb))
  {
    hide Complete, Held, Hang, Find, ListsOk, Outside, OffsetOf, Broken;
    HungOk(lists, p, nb);
    var i, j, after := Find(lists, key), Find(lists, p.key), Arrived(lists, p, nb);
    if p.key == key {
      HangBroken(lists[i].frags, Held(p, nb));
      BrokenIncomplete(NewRing(lists, p, nb));
      FindUnique(after, key, i);
    } else if j == |lists| {
      FindUnique(after, key, if Complete(NewRing(lists, p, nb)) then i else i + 1);
    } else {
      FindUnique(after, key, if Complete(NewRing(lists, p, nb)) && j < i then i - 1 else i);
    }
  }

  lemma {:induction false} AgedHas(lists: seq<FragList>, i: nat) returns (k: nat)
    requires (forall j :: 0 <= j < |lists| ==> 0 < lists[j].ttl) && i < |lists| && lists[i].ttl > 1
    ensures k < |Aged(lists)| && Aged(lists)[k] == lists[i].(ttl := lists[i].ttl - 1)
  {
    if i < |lists| - 1 {
      k := AgedHas(lists[..|lists| - 1], i);
    } else {
      k := |Aged(lists[..|lists| - 1])|;
    }
  }

  lemma AgedWaits(lists: seq<FragList>, key: Key, ttl: int)
    requires ListsOk(lists) && Waits(lists, key, ttl) && ttl > 1
    ensures forall j :: 0 <= j < |lists| ==> 0 < lists[j].ttl
    ensures ListsOk(Aged(lists)) && Waits(Aged(lists), key, ttl - 1)
  {
    hide Aged, Broken, Find;
    AgedOk(lists);
    var k := AgedHas(lists, Find(lists, key));
    FindUnique(Aged(lists), key, k);
  }

  /** A datagram whose ring is broken never goes up: whatever arrives, it waits to die of age. */
  lemma {:induction false} BrokenWaits(lists: seq<FragList>, es: seq<Event>, last: seq<FragList>, key: Key, ttl: int)
    requires ListsOk(lists) && Run(lists, es, last) && Waits(lists, key, ttl) && Ticks(es) < ttl
    ensures ListsOk(last) && Waits(last, key, ttl - Ticks(es))
    decreases |es|
  {
    hide ListsOk, Waits, Aged, Arrived, Find, Outside, OffsetOf, Room;
    if es != [] {
      if es[0].Tick? {
        AgedWaits(lists, key, ttl);
      } else {
        ArrivedWaits(lists, es[0].p, es[0].nb, key, ttl);
      }
      BrokenWaits(After(lists, es[0]), es[1..], last, key, ttl - if es[0].Tick? then 1 else 0);
    }
  }

  // ----- what goes up

  lemma PayloadsMore(a: seq<Frag>, f: Frag)
    ensures Payloads(a + [f]) == Payloads(a) + f.payload && Payloads([]) == []
  {
    assert (a + [f])[..|a|] == a;
  }

  lemma {:induction false} PayloadsJoin(a: seq<Frag>, b: seq<Frag>)
    ensures Payloads(a + b) == Payloads(a) + Payloads(b)
  {
    hide Payloads;
    if b == [] {
      assert a + b == a;
      PayloadsMore(a, Frag(0, 0, 0, [], 0));
    } else {
      var n := |b| - 1;
      assert b == b[..n] + [b[n]] && a + b == (a + b[..n]) + [b[n]];
      PayloadsMore(b[..n], b[n]);
      PayloadsMore(a + b[..n], b[n]);
      PayloadsJoin(a, b[..n]);
    }
  }

  /** In a datagram handed up each fragment lies at its offset, the first at 0 and the last up to the end. */
  lemma UpTiles(key: Key, frags: seq<Frag>, i: nat)
    requires Complete(frags) && i < |frags|
    ensures var w, lo := Whole(key, frags).payload, frags[i].offset;
            var hi := lo + |frags[i].payload|;
            && hi <= |w| && w[lo..hi] == frags[i].payload
            && (i == 0 ==> lo == 0)
            && (if i + 1 < |frags| then frags[i + 1].offset == hi else hi == |w|)
  {
    hide Payloads;
    UpSplit(frags, i);
    if i + 1 < |frags| {
      UpSplit(frags, i + 1);
    }
  }

  lemma UpSplit(frags: seq<Frag>, i: nat)
    requires i < |frags|
    ensures Payloads(frags) == Payloads(frags[..i]) + frags[i].payload + Payloads(frags[i + 1..])
    ensures Payloads(frags[..i + 1]) == Payloads(frags[..i]) + frags[i].payload
    ensures i + 1 == |frags| ==> Payloads(frags[i + 1..]) == []
    ensures i == 0 ==> Payloads(frags[..i]) == []
  {
    hide Payloads;
    SplitAt(frags, i);
    PayloadsJoin(frags[..i + 1], frags[i + 1..]);
    PayloadsMore(frags[..i], frags[i]);
    NoPayload();
  }

  lemma SplitAt<T>(s: seq<T>, i: nat)
    requires i < |s|
    ensures s == s[..i + 1] + s[i + 1..] && s[..i + 1] == s[..i] + [s[i]]
    ensures (i + 1 == |s| ==> s[i + 1..] == []) && (i == 0 ==> s[..i] == [])
  {}

  lemma NoPayload()
    ensures Payloads([]) == []
  {}
}
