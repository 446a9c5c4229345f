/**
  The ARP cache (Sources/fnet_stack/stack/fnet_arp.c): ten entries that map IP addresses to hardware
  addresses, each of which may hold one packet back until its address is known.  A zero IP address marks an
  unused entry, a zero hardware address one not yet known.  Packets are named by numbers, so that every
  one can be accounted for.
 */
module Arp {
  import opened Words
  import opened Wrappers

  type Ip = a: int | 0 <= a < 0x1_0000_0000 witness 0

  type Mac = a: int | 0 <= a < 0x1_0000_0000_0000 witness 0

  /** fnet_timer_ticks, an unsigned long. */
  type Time = a: int | 0 <= a < 0x1_0000_0000 witness 0

  const SIZE: nat := 10

  /** FNET_TIMER_PERIOD_MS, and FNET_ARP_TIMEOUT in ticks of it. */
  const PERIOD_MS: nat := 100
  const TIMEOUT: nat := 12000

  const BROADCAST: Mac := 0xffff_ffff_ffff

  datatype Entry = Entry(hard: Mac, prot: Ip, crTime: Time, hold: Option<nat>, holdTime: Time)

  const ZERO: Entry := Entry(0, 0, 0, None, 0)

  /** The time is `now`, `d` ticks after `since`, on a counter that wraps. */
  ghost predicate Elapsed(since: Time, now: Time, d: nat) {
    d < 0x1_0000_0000 && now == (since + d) % 0x1_0000_0000
  }

  /** Wrapping subtraction: the ticks that have passed. */
  function Age(now: Time, since: Time): (r: Time)
    ensures now == (since + r) % 0x1_0000_0000
  {
    (now as int - since as int) % WORD
  }

  lemma AgeIs(since: Time, now: Time)
    ensures forall d: nat :: Elapsed(since, now, d) <==> d == Age(now, since)
  {}

  /** Whatever the time, `d` ticks later the age is `d`. */
  lemma LaterAge(since: Time, d: nat)
    requires d < 0x1_0000_0000
    ensures Age((since + d) % 0x1_0000_0000, since) == d
  {
    hide Age;
    var now: Time := (since + d) % 0x1_0000_0000;
    AgeIs(since, now);
    assert Elapsed(since, now, d);
  }

  // ----- the table as a map

  /** The first entry of an address, or the length of the table. */
  function IndexOf(t: seq<Entry>, ip: Ip): (i: nat)
    ensures i <= |t| && (i < |t| ==> t[i].prot == ip)
    ensures forall j :: 0 <= j < i ==> t[j].prot != ip
    decreases |t|
  {
    if t == [] || t[0].prot == ip then 0 else 1 + IndexOf(t[1..], ip)
  }

  /** Used entries are for different addresses. */
  ghost predicate Distinct(t: seq<Entry>) {
    forall i, j :: 0 <= i < j < |t| && t[i].prot != 0 ==> t[i].prot != t[j].prot
  }

  lemma DistinctIndex(t: seq<Entry>, i: nat)
    requires Distinct(t) && i < |t| && t[i].prot != 0
    ensures IndexOf(t, t[i].prot) == i
  {}

  lemma DistinctPut(t: seq<Entry>, i: nat, e: Entry)
    requires Distinct(t) && i < |t| && (IndexOf(t, e.prot) == |t| || t[i].prot == e.prot || e.prot == 0)
    ensures Distinct(t[i := e])
  {}

  /** An entry other than the one put is found where it was. */
  lemma IndexPut(t: seq<Entry>, i: nat, e: Entry, ip: Ip)
    requires Distinct(t) && i < |t| && (IndexOf(t, e.prot) == |t| || t[i].prot == e.prot || e.prot == 0) && ip != 0
    ensures IndexOf(t[i := e], ip)
         == if ip == e.prot then i else if ip == t[i].prot then |t| else IndexOf(t, ip)
  {
    DistinctPut(t, i, e);
    var j := IndexOf(t[i := e], ip);
    var k := IndexOf(t, ip);
    if ip == e.prot {
      DistinctIndex(t[i := e], i);
    } else if ip == t[i].prot {
      DistinctIndex(t, i);
    } else if k < |t| {
      assert t[i := e][k] == t[k];
      DistinctIndex(t[i := e], k);
    }
  }

  /** The first of the entries made the most ticks ago. */
  ghost predicate Oldest(t: seq<Entry>, now: Time, i: nat) {
    && i < |t|
    && forall k, d: nat, e: nat :: 0 <= k < |t| && Elapsed(t[i].crTime, now, d) && Elapsed(t[k].crTime, now, e) ==> e <= d && (k < i ==> e < d)
  }

  lemma OldestByAge(t: seq<Entry>, now: Time, i: nat)
    requires i < |t| && forall k :: 0 <= k < |t| ==> Age(now, t[k].crTime) <= Age(now, t[i].crTime)
    requires forall k :: 0 <= k < i ==> Age(now, t[k].crTime) < Age(now, t[i].crTime)
    ensures Oldest(t, now, i)
  {
    hide Age;
    forall k | 0 <= k < |t| ensures forall d: nat :: Elapsed(t[k].crTime, now, d) <==> d == Age(now, t[k].crTime) {
      AgeIs(t[k].crTime, now);
    }
  }

  /** Where an address that is not in the table goes: the first unused entry, or when there is none an oldest one. */
  ghost predicate Place(t: seq<Entry>, now: Time, i: nat) {
    i < |t| && (if IndexOf(t, 0) < |t| then i == IndexOf(t, 0) else Oldest(t, now, i))
  }

  // ----- the packets

  function Held(e: Entry): multiset<nat> {
    if e.hold.Some? then multiset{e.hold.value} else multiset{}
  }

  function HeldAll(t: seq<Entry>): multiset<nat> {
    if t == [] then multiset{} else HeldAll(t[..|t| - 1]) + Held(t[|t| - 1])
  }

  lemma {:induction false} HeldPut(t: seq<Entry>, i: nat, e: Entry)
    requires i < |t|
    ensures HeldAll(t[i := e]) + Held(t[i]) == HeldAll(t) + Held(e)
  {
    hide Held;
    var n := |t| - 1;
    if i == n {
      assert t[i := e][..n] == t[..n];
    } else {
      HeldPut(t[..n], i, e);
      assert t[i := e][..n] == t[..n][i := e];
      assert HeldAll(t[i := e]) + Held(t[i]) == (HeldAll(t[..n][i := e]) + Held(t[i])) + Held(t[n]);
    }
  }

  /** Every packet taken is held, freed or sent, as often as it was taken. */
  ghost predicate Accounted(taken: multiset<nat>, t: seq<Entry>, freed: multiset<nat>, sent: multiset<nat>) {
    taken == HeldAll(t) + freed + sent
  }

  /** An entry is replaced, what it held is freed or sent, and what it holds now was taken. */
  lemma AccountPut(taken: multiset<nat>, t: seq<Entry>, freed: multiset<nat>, sent: multiset<nat>, i: nat, e: Entry)
    requires Accounted(taken, t, freed, sent) && i < |t|
    ensures Accounted(taken + Held(e), t[i := e], freed + Held(t[i]), sent)
    ensures Accounted(taken + Held(e), t[i := e], freed, sent + Held(t[i]))
  {
    hide Held, HeldAll;
    HeldPut(t, i, e);
    var was, now := HeldAll(t), HeldAll(t[i := e]);
    assert was + freed + sent + Held(e) == (was + Held(e)) + freed + sent;
    assert now + (freed + Held(t[i])) + sent == (now + Held(t[i])) + freed + sent;
    assert now + freed + (sent + Held(t[i])) == (now + Held(t[i])) + freed + sent;
  }

  lemma AccountKeep(taken: multiset<nat>, t: seq<Entry>, freed: multiset<nat>, sent: multiset<nat>, i: nat, e: Entry)
    requires Accounted(taken, t, freed, sent) && i < |t| && e.hold == t[i].hold
    ensures Accounted(taken, t[i := e], freed, sent)
  {
    hide HeldAll;
    HeldPut(t, i, e);
    Cancel(HeldAll(t[i := e]), HeldAll(t), Held(e));
  }

  lemma Cancel(a: multiset<nat>, b: multiset<nat>, c: multiset<nat>)
    requires a + c == b + c
    ensures a == b
  {
    forall x ensures a[x] == b[x] {
      assert (a + c)[x] == (b + c)[x];
    }
  }

  lemma AccountPass(taken: multiset<nat>, t: seq<Entry>, freed: multiset<nat>, sent: multiset<nat>, nb: nat)
    requires Accounted(taken, t, freed, sent)
    ensures Accounted(taken + multiset{nb}, t, freed + multiset{nb}, sent)
    ensures Accounted(taken + multiset{nb}, t, freed, sent + multiset{nb})
  {}

  /** The known addresses are the ones learned last. */
  ghost predicate Current(t: seq<Entry>, learned: map<Ip, Mac>) {
    forall i :: 0 <= i < |t| && t[i].prot != 0 && t[i].hard != 0 ==> t[i].prot in learned && learned[t[i].prot] == t[i].hard
  }

  /** What was learned last of each address, after one more announcement. */
  function Learn(learned: map<Ip, Mac>, ip: Ip, mac: Mac): map<Ip, Mac> {
    if mac == 0 then learned else learned[ip := mac]
  }

  lemma CurrentPut(t: seq<Entry>, learned: map<Ip, Mac>, i: nat, e: Entry)
    requires Distinct(t) && Current(t, learned) && i < |t|
    requires IndexOf(t, e.prot) == |t| || t[i].prot == e.prot
    ensures Current(t[i := e], Learn(learned, e.prot, e.hard))
  {}

  /** Entry `e` with what it holds taken away. */
  function Released(e: Entry): Entry {
    e.(hold := None, holdTime := 0)
  }

  /** An ARP packet: whether its fields are those of Ethernet and IPv4, and what it says. */
  datatype Packet = Packet(wellFormed: bool, request: bool, senderMac: Mac, senderIp: Ip, targetIp: Ip)

  class ArpTable {
    const table: array<Entry>
    ghost var taken: multiset<nat>
    ghost var freed: multiset<nat>
    ghost var sent: multiset<nat>
    ghost var learned: map<Ip, Mac>

    ghost predicate Valid()
      reads this, table
    {
      table.Length == SIZE && Distinct(table[..]) && Current(table[..], learned) && Accounted(taken, table[..], freed, sent)
    }

    /** fnet_arp_init. */
    constructor ()
      ensures Valid() && fresh(table) && table.Length == 10 && taken == multiset{}
      ensures forall i :: 0 <= i < table.Length ==> table[i] == Entry(0, 0, 0, None, 0)
    {
      table := new Entry[SIZE](_ => ZERO);
      taken, freed, sent, learned := multiset{}, multiset{}, multiset{}, map[];
      new;
      HeldZero(table[..]);
    }

    /** The search for an address. */
    method FindEntry(ip: Ip) returns (i: nat)
      ensures i == IndexOf(table[..], ip)
    {
      i := 0;
      assert table[..][0..] == table[..];
      while i < table.Length && ip != table[i].prot
        invariant i <= table.Length && IndexOf(table[..], ip) == i + IndexOf(table[..][i..], ip)
      {
        assert table[..][i..][1..] == table[..][i + 1..];
        i := i + 1;
      }
    }

    /** The search for the first of the oldest entries. */
    method FindOldest(now: Time) returns (j: nat)
      requires table.Length == SIZE
      ensures Oldest(table[..], now, j)
    {
      var maxTime, i := 0, 0;
      j := 0;
      while i < SIZE
        invariant 0 <= i <= SIZE && j < SIZE && maxTime <= Age(now, table[j].crTime)
        invariant maxTime == 0 || maxTime == Age(now, table[j].crTime)
        invariant forall k :: 0 <= k < i ==> Age(now, table[k].crTime) <= maxTime
        invariant forall k :: 0 <= k < j ==> Age(now, table[k].crTime) < maxTime
      {
        if Age(now, table[i].crTime) > maxTime {
          maxTime := Age(now, table[i].crTime);
          j := i;
        }
        i := i + 1;
      }
      OldestByAge(table[..], now, j);
    }

    /** fnet_arp_add_entry. */
    method AddEntry(ip: Ip, mac: Mac, now: Time) returns (i: nat)
      requires Valid()
      modifies this`freed, this`learned, table
      ensures Valid() && i < SIZE && learned == Learn(old(learned), ip, mac)
      ensures var t, k := old(table[..]), IndexOf(old(table[..]), ip);
              && (k < SIZE ==> i == k && freed == old(freed) && table[..] == t[k := t[k].(hard := mac, crTime := now)])
              && (k == SIZE ==>
                    && Place(t, now, i) && freed == old(freed) + Held(t[i])
                    && table[..] == t[i := Entry(mac, ip, now, None, if t[i].hold.Some? then 0 else t[i].holdTime)])
    {
      hide Distinct, Current, Accounted, IndexOf, Held, Oldest;
      ghost var t := table[..];
      i := FindEntry(ip);
      if i < SIZE {
        ghost var e := t[i].(hard := mac, crTime := now);
        PutOk(t, learned, i, e);
        AccountKeep(taken, t, freed, sent, i, e);
        table[i] := table[i].(hard := mac, crTime := now);
        assert table[..] == t[i := e];
      } else {
        i := FindEntry(0);
        if i == SIZE {
          i := FindOldest(now);
        }
        ghost var e := Entry(mac, ip, now, None, if t[i].hold.Some? then 0 else t[i].holdTime);
        PutOk(t, learned, i, e);
        AccountPut(taken, t, freed, sent, i, e);
        HeldNone(e);
        freed := freed + Held(t[i]);
        if table[i].hold.Some? {
          table[i] := Released(table[i]);
        }
        table[i] := table[i].(prot := ip, hard := mac, crTime := now, hold := None);
        assert table[..] == t[i := e];
        assert taken + multiset{} == taken;
      }
      learned := Learn(learned, ip, mac);
    }

    /** fnet_arp_update_entry. */
    method UpdateEntry(ip: Ip, mac: Mac, now: Time) returns (i: Option<nat>)
      requires Valid()
      modifies this`learned, table
      ensures Valid()
      ensures var t, k := old(table[..]), IndexOf(old(table[..]), ip);
              && (k < SIZE ==>
                    i == Some(k) && table[..] == t[k := t[k].(hard := mac, crTime := now)] && learned == Learn(old(learned), ip, mac))
              && (k == SIZE ==> i == None && table[..] == t && learned == old(learned))
    {
      hide Distinct, Current, Accounted, IndexOf, Held;
      ghost var t := table[..];
      var k := FindEntry(ip);
      if k == SIZE {
        return None;
      }
      ghost var e := t[k].(hard := mac, crTime := now);
      PutOk(t, learned, k, e);
      AccountKeep(taken, t, freed, sent, k, e);
      table[k] := table[k].(hard := mac, crTime := now);
      assert table[..] == t[k := e];
      learned := Learn(learned, ip, mac);
      i := Some(k);
    }

    /** fnet_arp_lookup: what is found of a used address is what was learned of it last. */
    method Lookup(ip: Ip) returns (mac: Option<Mac>)
      requires Valid()
      ensures var k := IndexOf(table[..], ip);
              mac == if k < SIZE && table[k].hard != 0 then Some(table[k].hard) else None
      ensures ip != 0 && mac.Some? ==> ip in learned && learned[ip] == mac.value != 0
    {
      hide IndexOf;
      var k := FindEntry(ip);
      if k < SIZE {
        if table[k].hard != 0 {
          assert table[..][k] == table[k];
          return Some(table[k].hard);
        }
      }
      mac := None;
    }

    /**
      fnet_arp_resolve: the packet is held for the address, in place of one held before, which is freed; a
      request goes out unless one for a held packet did within the last second.
     */
    method Resolve(ip: Ip, nb: nat, now: Time) returns (i: nat, requested: bool)
      requires Valid()
      modifies this`taken, this`freed, this`learned, table
      ensures Valid() && i < SIZE && learned == old(learned) && sent == old(sent) && taken == old(taken) + multiset{nb}
      ensures var t, k := old(table[..]), IndexOf(old(table[..]), ip);
              && (if k < SIZE then i == k else Place(t, now, i))
              && freed == old(freed) + Held(t[i])
              && (forall d: nat :: Elapsed(t[i].holdTime, now, d) ==>
                    (requested <==> k == SIZE || t[i].hold.None? || d * 100 % 0x1_0000_0000 > 1000))
              && table[..] == t[i := (if k < SIZE then t[i] else Entry(0, ip, now, None, 0)).(hold := Some(nb), holdTime := if requested then now else t[i].holdTime)]
    {
      hide Distinct, Current, Accounted, IndexOf, Held, Oldest, Place, Age, Elapsed;
      ghost var t := table[..];
      var k := FindEntry(ip);
      AgeIs(t[if k < SIZE then k else 0].holdTime, now);
      if k == SIZE {
        i := AddEntry(ip, 0, now);
      } else {
        i := k;
      }
      ghost var u := table[..];
      var had := table[i].hold;
      requested := k == SIZE || (had.Some? && Age(now, table[i].holdTime) * PERIOD_MS % WORD > 1000) || had.None?;
      ghost var e := u[i].(hold := Some(nb), holdTime := if requested then now else u[i].holdTime);
      PutSame(u, learned, i, e);
      AccountPut(taken, u, freed, sent, i, e);
      HeldSome(e, nb);
      HeldNone(Entry(0, ip, now, None, 0));
      HeldNoneAt(u, i);
      freed := freed + Held(u[i]);
      taken := taken + multiset{nb};
      table[i] := table[i].(hold := Some(nb), holdTime := if requested then now else table[i].holdTime);
      assert table[..] == u[i := e];
    }

    /** A packet held for entry `i` goes out to its address. */
    method SendHeld(i: nat, output: seq<(Mac, nat)>) returns (out: seq<(Mac, nat)>)
      requires Valid() && i < SIZE
      modifies this`sent, table
      ensures Valid() && sent == old(sent) + Held(old(table[i]))
      ensures table[..] == old(table[..])[i := if old(table[i]).hold.Some? then Released(old(table[i])) else old(table[i])]
      ensures out == output + if old(table[i]).hold.Some? then [(old(table[i]).hard, old(table[i]).hold.value)] else []
    {
      hide Distinct, Current, Accounted, Held;
      ghost var t := table[..];
      out := output;
      HeldNone(t[i]);
      if table[i].hold.Some? {
        out := out + [(table[i].hard, table[i].hold.value)];
        PutSame(t, learned, i, Released(t[i]));
        AccountPut(taken, t, freed, sent, i, Released(t[i]));
        HeldNone(Released(t[i]));
        sent := sent + Held(t[i]);
        table[i] := Released(table[i]);
        assert table[..] == t[i := Released(t[i])];
        assert taken + multiset{} == taken;
      } else {
        assert sent + multiset{} == sent;
        assert t[i := t[i]] == t;
      }
    }

    /** An announcement of `ip` heard: learned if `add` or if the address is in the table, and what is held for it sent. */
    method Announce(ip: Ip, mac: Mac, add: bool, now: Time) returns (output: seq<(Mac, nat)>, ghost i: nat)
      requires Valid()
      modifies this`freed, this`sent, this`learned, table
      ensures Valid() && taken == old(taken)
      ensures var t, k := old(table[..]), IndexOf(old(table[..]), ip);
              && output == (if k < SIZE && t[k].hold.Some? then [(mac, t[k].hold.value)] else [])
              && (k == SIZE && !add ==> table[..] == t && learned == old(learned))
              && (k < SIZE || add ==>
                    && learned == Learn(old(learned), ip, mac) && (if k < SIZE then i == k else Place(t, now, i))
                    && Announced(t, table[..], i, ip, mac, now))
    {
      hide Distinct, Current, Accounted, IndexOf, Held, Oldest, Place;
      ghost var t := table[..];
      output, i := [], 0;
      var entry;
      if add {
        var e := AddEntry(ip, mac, now);
        entry := Some(e);
      } else {
        entry := UpdateEntry(ip, mac, now);
      }
      if entry.Some? {
        i := entry.value;
        ghost var u := table[..];
        output := SendHeld(entry.value, output);
        assert forall j :: 0 <= j < SIZE && j != i ==> table[..][j] == u[j] == t[j];
      }
    }

    /**
      fnet_arp_input: an announcement is learned when it is for this host or its address is in the table, and
      sends what that entry holds to the address announced; a request for this host is answered in place.
     */
    method Input(p: Packet, nb: nat, now: Time, localIp: Ip, localMac: Mac)
      returns (output: seq<(Mac, nat)>, duplicate: bool, ghost i: nat)
      requires Valid()
      modifies this`taken, this`freed, this`sent, this`learned, table
      ensures Valid() && taken == old(taken) + multiset{nb}
      ensures duplicate <==> Heard(p, localMac) && p.senderIp == localIp
      ensures var answer := Heard(p, localMac) && p.request && p.targetIp == localIp;
              output == Forwarded(old(table[..]), p, localIp, localMac) + (if answer then [(BROADCAST, nb)] else [])
      ensures Heeded(old(table[..]), table[..], old(learned), learned, p, localIp, localMac, now, i)
    {
      hide Distinct, Current, Accounted, IndexOf, Held, Oldest, Place, Announced, Learn, Learns, Forwarded, Heeded;
      var answered;
      output, duplicate, answered, i := Listen(p, now, localIp, localMac);
      AccountPass(taken, table[..], freed, sent, nb);
      taken := taken + multiset{nb};
      if answered {
        sent := sent + multiset{nb};
        output := output + [(BROADCAST, nb)];
      } else {
        freed := freed + multiset{nb};
      }
    }

    /** What is heard in a packet: whether its sender has this host's address, and whether it wants an answer. */
    method Listen(p: Packet, now: Time, localIp: Ip, localMac: Mac)
      returns (output: seq<(Mac, nat)>, duplicate: bool, answered: bool, ghost i: nat)
      requires Valid()
      modifies this`freed, this`sent, this`learned, table
      ensures Valid() && taken == old(taken)
      ensures duplicate <==> Heard(p, localMac) && p.senderIp == localIp
      ensures answered <==> Heard(p, localMac) && p.request && p.targetIp == localIp
      ensures output == Forwarded(old(table[..]), p, localIp, localMac)
      ensures Heeded(old(table[..]), table[..], old(learned), learned, p, localIp, localMac, now, i)
    {
      hide Distinct, Current, Accounted, IndexOf, Held, Oldest, Place, Announced, Learn, Learns, Forwarded, Heeded;
      ghost var t := table[..];
      output, duplicate, answered, i := [], false, false, 0;
      NotHeeded(t, learned, p, localIp, localMac, now);
      if p.wellFormed && p.senderMac != localMac && p.senderMac != BROADCAST {
        if p.senderIp != localIp {
          output, i := Announce(p.senderIp, p.senderMac, p.targetIp == localIp, now);
          HeededBy(t, table[..], old(learned), learned, p, localIp, localMac, now, i, output);
        } else {
          duplicate := true;
        }
        answered := p.request && p.targetIp == localIp;
      }
    }

    /** fnet_arp_timer: entries in use that are older than 20 minutes go, and what they hold with them. */
    method Timer(now: Time)
      requires Valid()
      modifies this`freed, table
      ensures Valid()
      ensures forall j, d: nat :: 0 <= j < SIZE && Elapsed(old(table[j]).crTime, now, d) ==>
                table[j] == if old(table[j]).prot != 0 && d * 100 > 20 * 60 * 1000 then Entry(0, 0, 0, None, 0) else old(table[j])
    {
      hide Distinct, Current, Accounted, Held, Age;
      var i := 0;
      while i < SIZE
        invariant 0 <= i <= SIZE && Valid()
        invariant forall j :: 0 <= j < i ==> table[j] == if Expired(old(table[j]), now) then ZERO else old(table[j])
        invariant forall j :: i <= j < SIZE ==> table[j] == old(table[j])
      {
        if table[i].prot != 0 && Age(now, table[i].crTime) > TIMEOUT {
          ghost var t := table[..];
          PutZero(t, learned, i);
          AccountPut(taken, t, freed, sent, i, ZERO);
          HeldNone(ZERO);
          assert taken + multiset{} == taken;
          freed := freed + Held(t[i]);
          table[i] := ZERO;
          assert table[..] == t[i := ZERO];
        }
        i := i + 1;
      }
      forall j | 0 <= j < SIZE ensures forall d: nat :: Elapsed(old(table[j]).crTime, now, d) <==> d == Age(now, old(table[j]).crTime) {
        AgeIs(old(table[j]).crTime, now);
      }
    }

    /** fnet_arp_drain: nothing is held any more, and all addresses stay. */
    method Drain()
      requires Valid()
      modifies this`freed, table
      ensures Valid() && taken == freed + sent
      ensures forall j :: 0 <= j < SIZE ==>
                table[j] == if old(table[j]).hold.Some? then old(table[j]).(hold := None, holdTime := 0) else old(table[j])
    {
      hide Distinct, Current, Accounted, Held;
      var i := 0;
      while i < SIZE
        invariant 0 <= i <= SIZE && Valid()
        invariant forall j :: 0 <= j < i ==> table[j] == if old(table[j]).hold.Some? then Released(old(table[j])) else old(table[j])
        invariant forall j :: i <= j < SIZE ==> table[j] == old(table[j])
      {
        if table[i].hold.Some? {
          ghost var t := table[..];
          PutSame(t, learned, i, Released(t[i]));
          AccountPut(taken, t, freed, sent, i, Released(t[i]));
          HeldNone(Released(t[i]));
          assert taken + multiset{} == taken;
          freed := freed + Held(t[i]);
          table[i] := Released(table[i]);
          assert table[..] == t[i := Released(t[i])];
        }
        i := i + 1;
      }
      NothingHeld(taken, table[..], freed, sent);
    }
  }

  /** An ARP packet that is heeded: sound, and neither from this host nor from the broadcast address. */
  predicate Heard(p: Packet, localMac: Mac) {
    p.wellFormed && p.senderMac != localMac && p.senderMac != BROADCAST
  }

  predicate Learns(t: seq<Entry>, p: Packet, localIp: Ip, localMac: Mac) {
    Heard(p, localMac) && p.senderIp != localIp && (p.targetIp == localIp || IndexOf(t, p.senderIp) < |t|)
  }

  /** The held packet that an announcement sends on its way. */
  function Forwarded(t: seq<Entry>, p: Packet, localIp: Ip, localMac: Mac): seq<(Mac, nat)> {
    var k := IndexOf(t, p.senderIp);
    if Learns(t, p, localIp, localMac) && k < |t| && t[k].hold.Some? then [(p.senderMac, t[k].hold.value)] else []
  }

  /** Entry `i` says what was announced and holds nothing, and the others are as they were. */
  ghost predicate Announced(t: seq<Entry>, u: seq<Entry>, i: nat, ip: Ip, mac: Mac, now: Time) {
    && i < |u| == |t|
    && u[i].prot == ip && u[i].hard == mac && u[i].crTime == now && u[i].hold == None
    && forall j :: 0 <= j < |t| && j != i ==> u[j] == t[j]
  }

  /**
    What a packet teaches: nothing, or its sender's address, at the sender's entry if there is one, else
    where a new address goes.
   */
  ghost predicate Heeded(t: seq<Entry>, u: seq<Entry>, was: map<Ip, Mac>, learned: map<Ip, Mac>, p: Packet,
                         localIp: Ip, localMac: Mac, now: Time, i: nat) {
    if !Learns(t, p, localIp, localMac) then u == t && learned == was
    else
      var k := IndexOf(t, p.senderIp);
      && learned == Learn(was, p.senderIp, p.senderMac) && (if k < |t| then i == k else Place(t, now, i))
      && Announced(t, u, i, p.senderIp, p.senderMac, now)
  }

  lemma NotHeeded(t: seq<Entry>, was: map<Ip, Mac>, p: Packet, localIp: Ip, localMac: Mac, now: Time)
    ensures !Heard(p, localMac) || p.senderIp == localIp ==>
              Forwarded(t, p, localIp, localMac) == [] && forall i :: Heeded(t, t, was, was, p, localIp, localMac, now, i)
  {}

  lemma HeededBy(t: seq<Entry>, u: seq<Entry>, was: map<Ip, Mac>, learned: map<Ip, Mac>, p: Packet,
                 localIp: Ip, localMac: Mac, now: Time, i: nat, output: seq<(Mac, nat)>)
    requires Heard(p, localMac) && p.senderIp != localIp && |t| == SIZE
    requires var k := IndexOf(t, p.senderIp);
             && output == (if k < SIZE && t[k].hold.Some? then [(p.senderMac, t[k].hold.value)] else [])
             && (k == SIZE && p.targetIp != localIp ==> u == t && learned == was)
             && (k < SIZE || p.targetIp == localIp ==>
                   && learned == Learn(was, p.senderIp, p.senderMac) && (if k < SIZE then i == k else Place(t, now, i))
                   && Announced(t, u, i, p.senderIp, p.senderMac, now))
    ensures Forwarded(t, p, localIp, localMac) == output && Heeded(t, u, was, learned, p, localIp, localMac, now, i)
  {
    hide Place, Announced, Learn, IndexOf;
  }

  predicate Expired(e: Entry, now: Time) {
    e.prot != 0 && Age(now, e.crTime) > TIMEOUT
  }

  lemma PutZero(t: seq<Entry>, learned: map<Ip, Mac>, i: nat)
    requires Distinct(t) && Current(t, learned) && i < |t|
    ensures Distinct(t[i := ZERO]) && Current(t[i := ZERO], learned)
  {}

  lemma NothingHeld(taken: multiset<nat>, t: seq<Entry>, freed: multiset<nat>, sent: multiset<nat>)
    requires Accounted(taken, t, freed, sent) && forall i :: 0 <= i < |t| ==> t[i].hold.None?
    ensures taken == freed + sent
  {
    NoneHeld(t);
  }

  lemma {:induction false} NoneHeld(t: seq<Entry>)
    requires forall i :: 0 <= i < |t| ==> t[i].hold.None?
    ensures HeldAll(t) == multiset{}
  {
    if t != [] {
      NoneHeld(t[..|t| - 1]);
    }
  }

  lemma HeldZero(t: seq<Entry>)
    requires forall i :: 0 <= i < |t| ==> t[i] == ZERO
    ensures Distinct(t) && Current(t, map[]) && Accounted(multiset{}, t, multiset{}, multiset{})
  {
    HeldZeros(t);
  }

  lemma {:induction false} HeldZeros(t: seq<Entry>)
    requires forall i :: 0 <= i < |t| ==> t[i] == ZERO
    ensures HeldAll(t) == multiset{}
  {
    if t != [] {
      HeldZeros(t[..|t| - 1]);
    }
  }

  lemma HeldNone(e: Entry)
    ensures e.hold.None? ==> Held(e) == multiset{}
  {}

  lemma HeldNoneAt(t: seq<Entry>, i: nat)
    requires i < |t|
    ensures t[i].hold.None? ==> Held(t[i]) == multiset{}
  {}

  lemma HeldSome(e: Entry, nb: nat)
    ensures e.hold == Some(nb) ==> Held(e) == multiset{nb}
  {}

  lemma PutOk(t: seq<Entry>, learned: map<Ip, Mac>, i: nat, e: Entry)
    requires Distinct(t) && Current(t, learned) && i < |t|
    requires IndexOf(t, e.prot) == |t| || t[i].prot == e.prot
    ensures Distinct(t[i := e]) && Current(t[i := e], Learn(learned, e.prot, e.hard))
  {
    hide Distinct, Current, IndexOf, Learn;
    DistinctPut(t, i, e);
    CurrentPut(t, learned, i, e);
  }

  lemma PutSame(t: seq<Entry>, learned: map<Ip, Mac>, i: nat, e: Entry)
    requires Distinct(t) && Current(t, learned) && i < |t|
    requires t[i].prot == e.prot && t[i].hard == e.hard
    ensures Distinct(t[i := e]) && Current(t[i := e], learned)
  {}
}
