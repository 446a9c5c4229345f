/**
  The IP input queue (Sources/fnet_stack/stack/fnet_ip.c): packets with the interface they came from, first in,
  first out.  Reading hands a packet's chain over as it is.
 */
module IpQueues {
  import opened Words
  import opened NetbufMem
  import opened Netbufs
  import opened NetbufQueue
  import opened SocketBuffers

  /** The size of a pointer to an interface; its bytes stand for the interface. */
  const POINTER_SIZE: nat := 4

  class IpQueue {
    const pool: Netbufs
    const countMax: nat
    var count: nat
    var head: Ptr
    ghost var qss: seq<seq<Ptr>>
    /** All the packets appended so far, and those read. */
    ghost var appended: seq<Record>
    ghost var removed: seq<Record>

    ghost function Contents(): seq<Record>
      reads this, pool
    {
      Records(pool.m, qss)
    }

    ghost predicate Valid()
      reads this, pool
    {
      && WF(pool.m) && Queue(pool.m, head, qss) && AllStored(pool.m, qss)
      && appended == removed + Contents() && count == Wrapped(Volume(Contents())) && countMax < WORD
    }

    ghost predicate Bounded()
      reads this, pool
    {
      Volume(Contents()) <= countMax
    }

    constructor (pool: Netbufs, countMax: nat)
      requires WF(pool.m) && countMax < WORD
      ensures Valid() && Bounded() && Contents() == [] && appended == [] && this.pool == pool && this.countMax == countMax
    {
      this.pool, this.countMax := pool, countMax;
      count, head, qss, appended, removed := 0, NULL, [], [], [];
      new;
      QueueNil(pool.m);
    }

    /** fnet_ip_queue_append. */
    method Append(netif: seq<byte>, nb: Ptr, supply: Supply, ghost ps: seq<Ptr>) returns (ok: bool)
      requires Valid() && Chain(pool.m, nb, ps) && nb != NULL && Nodes(qss) !! Elems(ps) && |netif| == POINTER_SIZE
      modifies this, pool
      ensures Valid() && removed == old(removed)
      ensures ok <==> Wrapped(Volume(old(Contents())) + |Bytes(old(pool.m), ps)|) <= countMax && supply(0) && supply(1)
      ensures old(Bounded()) && |Bytes(old(pool.m), ps)| + countMax < WORD ==>
                Bounded() && (ok <==> Volume(old(Contents())) + |Bytes(old(pool.m), ps)| <= countMax && supply(0) && supply(1))
      ensures ok ==> appended == old(appended) + [Record(netif, Bytes(old(pool.m), ps))]
      ensures !ok ==> appended == old(appended) && pool.m == old(pool.m)
      ensures Frame(old(pool.m), pool.m, Nodes(old(qss)))
    {
      hide WF, Frame, Bytes, Elems, Seg, Queue, Nodes, AllStored, Records, Volume, Window, Stored, RecordOf, Relinked, Shows, OnlyLinks, Distinct, Wrapped;
      ListHead(pool.m.bufs, nb, ps);
      FrameMore(pool.m, Nodes(qss));
      Wraps(Volume(Contents()), |Bytes(pool.m, ps)|);
      if Wrapped(pool.m.bufs[nb].total + count) > countMax {
        return false;
      }
      ghost var was := Contents();
      var length := pool.m.bufs[nb].total;
      ok, head, qss := Enqueue(pool, head, nb, netif, supply, qss, ps);
      if !ok {
        return;
      }
      count := Wrapped(count + length);
      ghost var r := Record(netif, Bytes(old(pool.m), ps));
      VolumeJoin(was, [r]);
      VolumeOne(r);
      appended := appended + [r];
    }

    /**
      fnet_ip_queue_read: the first packet, whose chain is handed over with its netbufs as they were; only the
      netbuf with the interface is freed.
     */
    method Read() returns (nb: Ptr, netif: seq<byte>, ghost ps: seq<Ptr>)
      requires Valid()
      modifies this, pool
      ensures (old(Bounded()) ==> Bounded()) && Valid() && appended == old(appended) && |old(qss)| == |old(Contents())|
      ensures old(Contents()) == [] ==> nb == NULL && pool.m == old(pool.m) && removed == old(removed)
      ensures old(Contents()) != [] ==>
                var r := old(Contents())[0];
                && nb != NULL && |old(qss)[0]| >= 2 && ps == old(qss)[0][1..] && qss == old(qss)[1..] && removed == old(removed) + [r]
                && netif == r.address && Chain(pool.m, nb, ps) && Bytes(pool.m, ps) == r.payload && Elems(ps) !! Nodes(qss)
                && pool.m.bufs.Keys == old(pool.m).bufs.Keys - {old(head)} && Frame(old(pool.m), pool.m, {old(head)})
    {
      hide WF, Safe, Stranded, Frame, Bytes, Elems, Seg, Queue, Nodes, AllStored, Records, Volume, Window, Stored, RecordOf, Wrapped;
      nb, netif, ps := NULL, [], [];
      FirstRecord(pool.m, head, qss);
      RecordsNil(pool.m);
      if head == NULL {
        return;
      }
      ghost var m0, rs := pool.m, Contents();
      var was := head;
      ps := qss[0][1..];
      nb := pool.m.bufs[head].next;
      WindowSlice(pool.m, head);
      var b := pool.m.bufs[head];
      netif := pool.m.datas[b.data].bytes[b.off..b.off + b.length];
      VolumeFirst(rs);
      if nb != NULL {
        Wraps(Volume(rs[1..]), pool.m.bufs[nb].total);
        count := Wrapped(count - pool.m.bufs[nb].total);
      }
      Unhooked(m0, head, qss);
      pool.m := Edit(pool.m, head, b.(next := NULL));
      ghost var m1 := pool.m;
      head := b.nextChain;
      SafeIff(m1);
      pool.FreeChain(was, [was]);
      HandedOver(m0, m1, pool.m, was, qss);
      qss := qss[1..];
      Shift(removed, rs);
      removed := removed + [rs[0]];
    }
  }

  /** The first chain's head cut off from the packet behind it. */
  lemma Unhooked(m: Mem, head: Ptr, qss: seq<seq<Ptr>>)
    requires WF(m) && Queue(m, head, qss) && qss != [] && head in m.bufs
    ensures var m1 := Edit(m, head, m.bufs[head].(next := NULL));
            WF(m1) && Frame(m, m1, {head}) && List(m1.bufs, head, [head]) && m1.bufs.Keys == m.bufs.Keys
  {
    hide WF, Frame, Bytes, Window, Elems, Nodes, Shows;
    HeadIn(m, head, qss);
    PlaceUse(m, qss, 0);
    LinkOk(m, head, m.bufs[head].(next := NULL));
    ListOne(Edit(m, head, m.bufs[head].(next := NULL)).bufs, head);
  }

  /** The queue from the second packet on, and the first packet's chain. */
  lemma HandedOver(m0: Mem, m1: Mem, m: Mem, head: Ptr, qss: seq<seq<Ptr>>)
    requires WF(m0) && Queue(m0, head, qss) && AllStored(m0, qss) && qss != [] && head in m0.bufs
    requires Frame(m0, m1, {head}) && Frame(m1, m, Elems([head])) && m1.bufs.Keys == m0.bufs.Keys && m.bufs == m1.bufs - Elems([head])
    ensures Frame(m0, m, {head}) && m.bufs.Keys == m0.bufs.Keys - {head}
    ensures Queue(m, m0.bufs[head].nextChain, qss[1..]) && AllStored(m, qss[1..]) && Records(m, qss[1..]) == Records(m0, qss)[1..]
    ensures |qss[0]| >= 2 && Chain(m, qss[0][1], qss[0][1..]) && Bytes(m, qss[0][1..]) == Bytes(m0, qss[0][1..])
    ensures Elems(qss[0][1..]) !! Nodes(qss[1..])
  {
    hide WF, Frame, Bytes, Seg, Window, Nodes, Place, RecordOf, Queue, Distinct;
    assert Elems([head]) == {head};
    FrameTrans(m0, m1, m, {head}, {head}, {head});
    QueueRest(m0, head, qss);
    HeadIn(m0, head, qss);
    PlaceUse(m0, qss, 0);
    assert head in Elems(qss[0]);
    QueueFrame(m0, m, {head}, m0.bufs[head].nextChain, qss[1..]);
    assert AllStored(m0, qss[1..]);
    SameRecords(m0, m, {head}, m0.bufs[head].nextChain, qss[1..]);
    assert Records(m0, qss)[1..] == Records(m0, qss[1..]);
    assert Stored(m0, qss[0]);
    HeadApart(m0.bufs, head, qss[0]);
    FrameList(m0, m, {head}, qss[0][1], qss[0][1..]);
  }

  lemma HeadApart(bufs: map<Ptr, NetBuf>, p: Ptr, ps: seq<Ptr>)
    requires List(bufs, p, ps) && |ps| >= 2
    ensures p !in ps[1..] && Elems(ps[1..]) <= Elems(ps)
  {
    hide Seg;
    ListDistinct(bufs, p, ps);
    ListHead(bufs, p, ps);
  }
}
