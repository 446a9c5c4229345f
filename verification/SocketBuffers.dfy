/** Socket buffers (Sources/fnet_stack/stack/fnet_socket.c): a byte stream and a queue of datagrams, both made of netbufs. */
module SocketBuffers {
  import opened Words
  import opened NetbufMem
  import opened Netbufs
  import opened NetbufQueue

  /** A stream buffer: one chain holds the bytes appended and not yet read. */
  class StreamBuffer {
    const pool: Netbufs
    const countMax: nat
    var count: nat
    var chain: Ptr
    ghost var ps: seq<Ptr>
    /** All the bytes appended so far, and those that reads have removed. */
    ghost var appended: seq<byte>
    ghost var removed: seq<byte>

    ghost function Contents(): seq<byte>
      reads this, pool
    {
      Bytes(pool.m, ps)
    }

    /** What was removed and what is still there is what was appended, in order; the count is exact in 32 bits. */
    ghost predicate Valid()
      reads this, pool
    {
      && WF(pool.m) && Chain(pool.m, chain, ps)
      && appended == removed + Contents() && count == Wrapped(|Contents()|) && countMax < WORD
    }

    ghost predicate Bounded()
      reads this, pool
    {
      |Contents()| <= countMax
    }

    constructor (pool: Netbufs, countMax: nat)
      requires WF(pool.m) && countMax < WORD
      ensures Valid() && Bounded() && Contents() == [] && appended == [] && this.pool == pool && this.countMax == countMax
    {
      this.pool, this.countMax := pool, countMax;
      count, chain, ps, appended, removed := 0, NULL, [], [], [];
    }

    /**
      fnet_socket_buffer_append_record.  The new count is compared with the bound in 32 bits, so that the bound
      holds as long as chains are short enough for the sum not to wrap.
     */
    method Append(nb: Ptr, ghost qs: seq<Ptr>) returns (ok: bool)
      requires Valid() && Chain(pool.m, nb, qs) && nb != NULL && Elems(ps) !! Elems(qs)
      modifies this, pool
      ensures Valid() && removed == old(removed)
      ensures ok <==> Wrapped(|old(Contents())| + |Bytes(old(pool.m), qs)|) <= countMax
      ensures old(Bounded()) && |Bytes(old(pool.m), qs)| + countMax < WORD ==>
                Bounded() && (ok <==> |old(Contents())| + |Bytes(old(pool.m), qs)| <= countMax)
      ensures ok ==> appended == old(appended) + Bytes(old(pool.m), qs) && Frame(old(pool.m), pool.m, Elems(old(ps)))
      ensures ok ==> pool.m.bufs.Keys == old(pool.m).bufs.Keys && ps == old(ps) + qs
      ensures !ok ==> appended == old(appended) && pool.m == old(pool.m) && ps == old(ps)
    {
      hide WF, Frame, Bytes, Elems, Seg, Wrapped;
      ListHead(pool.m.bufs, nb, qs);
      Wraps(|Contents()|, |Bytes(pool.m, qs)|);
      if Wrapped(pool.m.bufs[nb].total + count) > countMax {
        return false;
      }
      var length := pool.m.bufs[nb].total;
      ghost var more := Bytes(pool.m, qs);
      chain := pool.Concat(chain, nb, ps, qs);
      count := Wrapped(count + length);
      ps, appended := ps + qs, appended + more;
      ok := true;
    }

    /** fnet_socket_buffer_read_record: a length below zero asks for everything, as one above the contents does. */
    method Read(len: int, remove: bool) returns (buf: seq<byte>, n: nat)
      requires Valid()
      modifies this, pool
      ensures Valid() && appended == old(appended) && (old(Bounded()) ==> Bounded())
      ensures n == (if 0 <= len <= |old(Contents())| then len else |old(Contents())|) && buf == old(Contents())[..n]
      ensures removed == if remove then old(removed) + buf else old(removed)
      ensures if remove then Frame(old(pool.m), pool.m, Elems(old(ps))) else pool.m == old(pool.m)
      ensures pool.m.bufs.Keys == old(pool.m).bufs.Keys - (Elems(old(ps)) - Elems(ps)) && Elems(ps) <= Elems(old(ps))
      ensures remove && 0 < n == |old(Contents())| ==> ps == []
    {
      hide WF, Frame, Bytes, Elems, Seg, Wrapped, Shrunk, Edit, Window;
      buf, n := [], 0;
      ghost var was := Contents();
      ListHead(pool.m.bufs, chain, ps);
      BytesNil(pool.m);
      FrameMore(pool.m, Elems(ps));
      if chain == NULL {
        return;
      }
      n := if 0 <= len <= pool.m.bufs[chain].total then len else pool.m.bufs[chain].total;
      buf := pool.ToBuf(chain, 0, n, ps);
      assert buf == was[..n];
      if remove {
        chain, ps := pool.Trim(chain, n, ps);
        assert Contents() == was[n..];
        count := Wrapped(count - n);
        Wraps(|was| - n, n);
        Moved(removed, was, n);
        removed := removed + buf;
      }
      assert |Contents()| <= |was|;
    }
  }

  lemma Moved<T>(a: seq<T>, b: seq<T>, n: nat)
    requires n <= |b|
    ensures a + b == (a + b[..n]) + b[n..]
  {}

  /** A count as it is kept in 32 bits. */
  function Wrapped(n: int): (r: nat)
    ensures r < 0x1_0000_0000 && (n - r) % 0x1_0000_0000 == 0
  {
    n % WORD
  }

  lemma Wraps(a: nat, b: nat)
    ensures Wrapped(b + Wrapped(a)) == Wrapped(Wrapped(a) + b) == Wrapped(a + b) && Wrapped(Wrapped(a + b) - b) == Wrapped(a)
    ensures a + b < WORD ==> Wrapped(a + b) == a + b
  {}

  // ----- datagrams

  /** A datagram received: the address it came from, and its bytes. */
  datatype Record = Record(address: seq<byte>, payload: seq<byte>)

  /** sizeof(fnet_socket_buffer_addr_t), with IPv6. */
  const ADDRESS_SIZE: nat := 24

  /** A chain in the queue: a netbuf with the address, then the payload, whose head still knows its total. */
  ghost predicate Stored(m: Mem, qs: seq<Ptr>) {
    |qs| >= 2 && Chain(m, qs[1], qs[1..])
  }

  /** Addresses all of one size. */
  ghost predicate Sized(rs: seq<Record>, size: nat) {
    forall i :: 0 <= i < |rs| ==> |rs[i].address| == size
  }

  ghost function RecordOf(m: Mem, qs: seq<Ptr>): Record {
    if qs == [] then Record([], []) else Record(Window(m, qs[0]), Bytes(m, qs[1..]))
  }

  ghost function Records(m: Mem, qss: seq<seq<Ptr>>): (r: seq<Record>)
    ensures |r| == |qss| && forall i :: 0 <= i < |qss| ==> r[i] == RecordOf(m, qss[i])
  {
    seq(|qss|, i requires 0 <= i < |qss| => RecordOf(m, qss[i]))
  }

  function Volume(rs: seq<Record>): nat {
    if rs == [] then 0 else Volume(rs[..|rs| - 1]) + |rs[|rs| - 1].payload|
  }

  lemma {:induction false} VolumeJoin(a: seq<Record>, b: seq<Record>)
    ensures Volume(a + b) == Volume(a) + Volume(b)
  {
    if b == [] {
      assert a + b == a;
    } else {
      VolumeJoin(a, b[..|b| - 1]);
      assert (a + b)[..|a + b| - 1] == a + b[..|b| - 1];
    }
  }

  lemma VolumeOne(r: Record)
    ensures Volume([r]) == |r.payload|
  {
    assert Volume([]) == 0;
  }

  lemma VolumeFirst(rs: seq<Record>)
    requires rs != []
    ensures Volume(rs) == |rs[0].payload| + Volume(rs[1..])
  {
    assert rs == [rs[0]] + rs[1..];
    VolumeJoin([rs[0]], rs[1..]);
    VolumeOne(rs[0]);
  }

  ghost predicate AllStored(m: Mem, qss: seq<seq<Ptr>>) {
    forall i :: 0 <= i < |qss| ==> Stored(m, qss[i])
  }

  /** A memory that shows the same of the queue's netbufs holds the same records. */
  lemma SameRecords(m: Mem, m': Mem, s: set<Ptr>, head: Ptr, qss: seq<seq<Ptr>>)
    requires WF(m) && Queue(m, head, qss) && AllStored(m, qss) && Frame(m, m', s) && Nodes(qss) !! s
    ensures AllStored(m', qss) && Records(m', qss) == Records(m, qss)
  {
    hide WF, Bytes, Seg, Frame, Window, Elems, Nodes, Place;
    FrameFirst(qss);
    forall i | 0 <= i < |qss| ensures Stored(m', qss[i]) && RecordOf(m', qss[i]) == RecordOf(m, qss[i]) {
      PlaceUse(m, qss, i);
      OneSame(m, m', s, qss[i]);
    }
  }

  lemma OneSame(m: Mem, m': Mem, s: set<Ptr>, qs: seq<Ptr>)
    requires Stored(m, qs) && Frame(m, m', s) && Elems(qs) !! s && List(m.bufs, qs[0], qs)
    ensures Stored(m', qs) && RecordOf(m', qs) == RecordOf(m, qs)
  {
    hide Bytes, Frame, Window;
    assert forall q :: q in qs ==> q in Elems(qs);
    SegIn(m.bufs, qs[0], qs, NULL);
    FrameAt(m, m', s, qs[0]);
    FrameList(m, m', s, qs[1], qs[1..]);
  }

  /** A chain put at the end of a queue behind a new netbuf with the address it came from. */
  method Enqueue(pool: Netbufs, head: Ptr, nb: Ptr, address: seq<byte>, supply: Supply, ghost qss: seq<seq<Ptr>>, ghost ps: seq<Ptr>)
      returns (ok: bool, r: Ptr, ghost rss: seq<seq<Ptr>>)
    requires WF(pool.m) && Queue(pool.m, head, qss) && AllStored(pool.m, qss)
    requires Chain(pool.m, nb, ps) && nb != NULL && Nodes(qss) !! Elems(ps)
    modifies pool
    ensures WF(pool.m) && Queue(pool.m, r, rss) && AllStored(pool.m, rss) && Frame(old(pool.m), pool.m, Nodes(qss))
    ensures ok <==> supply(0) && supply(1)
    ensures !ok ==> pool.m == old(pool.m) && r == head && rss == qss
    ensures ok ==>
              && (exists a: Ptr :: a !in old(pool.m).bufs && rss == qss + [[a] + ps] && pool.m.bufs.Keys == old(pool.m).bufs.Keys + {a})
              && Records(pool.m, rss) == Records(old(pool.m), qss) + [Record(address, Bytes(old(pool.m), ps))]
  {
    hide WF, Frame, Bytes, Elems, Seg, Queue, Nodes, AllStored, Records, Window, Stored, RecordOf, Relinked, Shows, OnlyLinks, Distinct;
    ghost var m0 := pool.m;
    FrameMore(m0, Nodes(qss));
    ok, r, rss := false, head, qss;
    var a := pool.FromBuf(address, |address|, supply);
    if a == NULL {
      return;
    }
    ghost var m1 := pool.m;
    AppendNew(m0, m1, head, qss, nb, ps, a, address);
    var joined := pool.Concat(a, nb, [a], ps);
    ghost var m2 := pool.m;
    AppendJoined(m0, m1, m2, head, qss, nb, ps, a, address);
    r := AddChain(pool, head, joined, qss, [a] + ps);
    AppendAdded(m0, m2, pool.m, r, qss, [a] + ps, Record(address, Bytes(m0, ps)));
    AppendFrames(m0, m1, m2, pool.m, a, Nodes(qss));
    ok, rss := true, qss + [[a] + ps];
  }

  class DatagramBuffer {
    const pool: Netbufs
    const countMax: nat
    var count: nat
    var chain: Ptr
    ghost var qss: seq<seq<Ptr>>
    /** All the records appended so far, and those that reads have removed. */
    ghost var appended: seq<Record>
    ghost var removed: seq<Record>

    ghost function Contents(): seq<Record>
      reads this, pool
    {
      Records(pool.m, qss)
    }

    ghost predicate Valid()
      reads this, pool
    {
      && WF(pool.m) && Queue(pool.m, chain, qss) && AllStored(pool.m, qss)
      && appended == removed + Contents() && count == Wrapped(Volume(Contents())) && countMax < WORD && Sized(Contents(), ADDRESS_SIZE)
    }

    ghost predicate Bounded()
      reads this, pool
    {
      Volume(Contents()) <= countMax
    }

    constructor (pool: Netbufs, countMax: nat)
      requires WF(pool.m) && countMax < WORD
      ensures Valid() && Bounded() && Contents() == [] && appended == [] && this.pool == pool && this.countMax == countMax
    {
      this.pool, this.countMax := pool, countMax;
      count, chain, qss, appended, removed := 0, NULL, [], [], [];
      new;
      QueueNil(pool.m);
    }

    /** fnet_socket_buffer_append_address. */
    method Append(nb: Ptr, address: seq<byte>, supply: Supply, ghost ps: seq<Ptr>) returns (ok: bool)
      requires Valid() && Chain(pool.m, nb, ps) && nb != NULL && Nodes(qss) !! Elems(ps) && |address| == ADDRESS_SIZE
      modifies this, pool
      ensures Valid() && removed == old(removed)
      ensures ok <==> Wrapped(Volume(old(Contents())) + |Bytes(old(pool.m), ps)|) <= countMax && supply(0) && supply(1)
      ensures old(Bounded()) && |Bytes(old(pool.m), ps)| + countMax < WORD ==>
                Bounded() && (ok <==> Volume(old(Contents())) + |Bytes(old(pool.m), ps)| <= countMax && supply(0) && supply(1))
      ensures ok ==> appended == old(appended) + [Record(address, Bytes(old(pool.m), ps))]
      ensures !ok ==> appended == old(appended) && pool.m == old(pool.m)
      ensures Frame(old(pool.m), pool.m, Nodes(old(qss)))
    {
      hide WF, Frame, Bytes, Elems, Seg, Queue, Nodes, AllStored, Records, Volume, Window, Stored, RecordOf, Relinked, Shows, OnlyLinks, Distinct, Wrapped;
      ListHead(pool.m.bufs, nb, ps);
      FrameMore(pool.m, Nodes(qss));
      Wraps(Volume(Contents()), |Bytes(pool.m, ps)|);
      if Wrapped(pool.m.bufs[nb].total + count) > countMax {
        return false;
      }
      ghost var was := Contents();
      var length := pool.m.bufs[nb].total;
      ok, chain, qss := Enqueue(pool, chain, nb, address, supply, qss, ps);
      if !ok {
        return;
      }
      count := Wrapped(count + length);
      ghost var r := Record(address, Bytes(old(pool.m), ps));
      VolumeJoin(was, [r]);
      VolumeOne(r);
      appended := appended + [r];
    }

    /**
      fnet_socket_buffer_read_address: the first record's address, and as many of its bytes as asked for - all
      when the length is below zero.  The result is an error when that cuts the payload short; removing takes
      the record away all the same.
     */
    method Read(len: int, remove: bool) returns (buf: seq<byte>, address: seq<byte>, n: int)
      requires Valid()
      modifies this, pool
      ensures Valid() && appended == old(appended) && (old(Bounded()) ==> Bounded())
      ensures |old(qss)| == |old(Contents())|
      ensures old(Contents()) == [] ==> n == 0 && buf == [] && address == [] && removed == old(removed) && pool.m == old(pool.m)
      ensures old(Contents()) != [] ==>
                var r := old(Contents())[0];
                && address == r.address && (n == |r.payload| || n == -1)
                && (n == -1 <==> 0 <= len < |r.payload|) && buf == (if n == -1 then r.payload[..len] else r.payload)
                && removed == (if remove then old(removed) + [r] else old(removed))
                && (!remove ==> pool.m == old(pool.m))
                && (remove ==> pool.m.bufs.Keys == old(pool.m).bufs.Keys - Elems(old(qss)[0]) && qss == old(qss)[1..])
      ensures Frame(old(pool.m), pool.m, Nodes(old(qss)))
    {
      hide WF, Frame, Bytes, Elems, Seg, Queue, Nodes, AllStored, Records, Volume, Window, Stored, Wrapped;
      buf, address, n := [], [], 0;
      FirstRecord(pool.m, chain, qss);
      FrameMore(pool.m, Nodes(qss));
      if chain == NULL {
        RecordsNil(pool.m);
        return;
      }
      var nb := pool.m.bufs[chain].next;
      var total := pool.m.bufs[nb].total;
      var m := if 0 <= len <= total then len else total;
      buf := pool.ToBuf(nb, 0, m, qss[0][1..]);
      WindowSlice(pool.m, chain);
      var b := pool.m.bufs[chain];
      address := pool.m.datas[b.data].bytes[b.off..b.off + b.length];
      n := if m < b.total - ADDRESS_SIZE then -1 else m;
      if remove {
        RemoveFirst(total);
      }
    }

    /** Removing the first record. */
    method RemoveFirst(total: nat)
      requires Valid() && Contents() != [] && total == |Contents()[0].payload|
      modifies this, pool
      ensures Valid() && appended == old(appended) && removed == old(removed) + [old(Contents())[0]]
      ensures Volume(Contents()) <= Volume(old(Contents()))
      ensures |old(qss)| > 0 && qss == old(qss)[1..] && pool.m.bufs.Keys == old(pool.m).bufs.Keys - Elems(old(qss)[0])
      ensures Frame(old(pool.m), pool.m, Nodes(old(qss)))
    {
      hide WF, Frame, Bytes, Elems, Seg, Queue, Nodes, AllStored, Volume, Window, Stored, RecordOf, Records, Wrapped;
      RecordsNil(pool.m);
      ghost var rs, m0, head := Contents(), pool.m, chain;
      VolumeFirst(rs);
      Wraps(Volume(rs[1..]), total);
      count := Wrapped(count - total);
      assert chain == HeadOf(qss, 0) && qss[..0] + qss[0 + 1..] == qss[1..] by { HeadIn(pool.m, chain, qss); }
      FrameFirst(qss);
      chain := DelChain(pool, chain, chain, qss, 0);
      RestRecords(m0, pool.m, head, qss);
      FrameWider(m0, pool.m, Elems(qss[0]), Nodes(qss));
      qss := qss[1..];
      Shift(removed, rs);
      removed := removed + [rs[0]];
    }
  }

  lemma Shift(a: seq<Record>, b: seq<Record>)
    requires b != []
    ensures a + b == a + [b[0]] + b[1..]
  {}

  lemma RecordsNil(m: Mem)
    ensures Records(m, []) == []
  {}

  /** The records from the second on, when the first chain is freed. */
  lemma RestRecords(m: Mem, m': Mem, head: Ptr, qss: seq<seq<Ptr>>)
    requires WF(m) && Queue(m, head, qss) && AllStored(m, qss) && qss != [] && Frame(m, m', Elems(qss[0]))
    ensures AllStored(m', qss[1..]) && Records(m', qss[1..]) == Records(m, qss)[1..]
  {
    hide WF, Bytes, Seg, Frame, Window, Elems, Nodes, Place, Stored, RecordOf, Queue;
    QueueRest(m, head, qss);
    assert AllStored(m, qss[1..]);
    SameRecords(m, m', Elems(qss[0]), m.bufs[head].nextChain, qss[1..]);
    assert Records(m, qss)[1..] == Records(m, qss[1..]);
  }

  /** The first record, where the read finds it. */
  lemma FirstRecord(m: Mem, head: Ptr, qss: seq<seq<Ptr>>)
    requires WF(m) && Queue(m, head, qss) && AllStored(m, qss)
    ensures head == NULL <==> qss == []
    ensures qss != [] ==>
              && Records(m, qss) != [] && head in m.bufs && |qss[0]| >= 2 && m.bufs[head].next == qss[0][1] && qss[0][1] != NULL
              && Chain(m, qss[0][1], qss[0][1..]) && qss[0][1] in m.bufs
              && m.bufs[head].total == |Records(m, qss)[0].address| + |Records(m, qss)[0].payload|
              && m.bufs[qss[0][1]].total == |Records(m, qss)[0].payload| && Records(m, qss)[0] == Record(Window(m, head), Bytes(m, qss[0][1..]))
  {
    hide WF, Bytes, Seg, Frame, Window, Elems, Nodes;
    HeadIn(m, head, qss);
    if qss != [] {
      PlaceUse(m, qss, 0);
      SegAt(m.bufs, head, qss[0], NULL, 1);
      SegAt(m.bufs, head, qss[0], NULL, 0);
      BytesAt(m, qss[0], 0);
      BytesNil(m);
      assert qss[0] == [head] + qss[0][1..];
      BytesConcat(m, [head], qss[0][1..]);
      BytesOne(m, head);
    }
  }

  /** With the address in a netbuf of its own, new to everything else. */
  lemma AppendNew(m0: Mem, m1: Mem, head: Ptr, qss: seq<seq<Ptr>>, nb: Ptr, ps: seq<Ptr>, a: Ptr, address: seq<byte>)
    requires WF(m0) && WF(m1) && Queue(m0, head, qss) && AllStored(m0, qss) && Chain(m0, nb, ps) && nb != NULL && Nodes(qss) !! Elems(ps)
    requires Frame(m0, m1, {}) && a !in m0.bufs && a != NULL && Chain(m1, a, [a]) && Bytes(m1, [a]) == address
    ensures Queue(m1, head, qss) && AllStored(m1, qss) && Records(m1, qss) == Records(m0, qss)
    ensures Chain(m1, nb, ps) && Bytes(m1, ps) == Bytes(m0, ps) && Window(m1, a) == address
    ensures Elems([a]) !! Elems(ps) && Elems([a]) !! Nodes(qss) && Elems([a]) == {a} && nb in m0.bufs && m1.bufs[nb] == m0.bufs[nb]
  {
    hide WF, Frame, Bytes, Seg, Queue, AllStored, Records, Window, Stored, Nodes;
    QueueFrame(m0, m1, {}, head, qss);
    SameRecords(m0, m1, {}, head, qss);
    FrameList(m0, m1, {}, nb, ps);
    BytesOne(m1, a);
    ListHead(m0.bufs, nb, ps);
    FrameAt(m0, m1, {}, nb);
    ElemsWithin(m0, nb, ps);
    NodesWithin(m0, head, qss);
  }

  lemma NodesWithin(m: Mem, head: Ptr, qss: seq<seq<Ptr>>)
    requires Queue(m, head, qss)
    ensures Nodes(qss) <= m.bufs.Keys
  {
    hide Elems, Bytes;
    forall i | 0 <= i < |qss| ensures Elems(qss[i]) <= m.bufs.Keys {
      assert Place(m, qss, i);
      ElemsWithin(m, qss[i][0], qss[i]);
    }
  }

  /** With the address in front of the payload. */
  lemma AppendJoined(m0: Mem, m1: Mem, m2: Mem, head: Ptr, qss: seq<seq<Ptr>>, nb: Ptr, ps: seq<Ptr>, a: Ptr, address: seq<byte>)
    requires WF(m1) && Queue(m1, head, qss) && AllStored(m1, qss) && Records(m1, qss) == Records(m0, qss)
    requires Chain(m1, nb, ps) && nb != NULL && Bytes(m1, ps) == Bytes(m0, ps) && Window(m1, a) == address
    requires Elems([a]) !! Elems(ps) && Elems([a]) !! Nodes(qss) && Elems([a]) == {a} && Nodes(qss) !! Elems(ps)
    requires a in m1.bufs && m1.bufs[a].nextChain == NULL
    requires Frame(m1, m2, Elems([a])) && Relinked(m1, m2) && Chain(m2, a, [a] + ps)
    ensures Queue(m2, head, qss) && AllStored(m2, qss) && Records(m2, qss) == Records(m0, qss)
    ensures Stored(m2, [a] + ps) && RecordOf(m2, [a] + ps) == Record(address, Bytes(m0, ps)) && Nodes(qss) !! Elems([a] + ps)
    ensures a in m2.bufs && m2.bufs[a].nextChain == NULL
  {
    hide WF, Frame, Bytes, Seg, Queue, AllStored, Records, Window, Nodes;
    QueueFrame(m1, m2, {a}, head, qss);
    SameRecords(m1, m2, {a}, head, qss);
    assert forall q :: q in ps ==> q in Elems(ps);
    FrameList(m1, m2, {a}, nb, ps);
    ListHead(m1.bufs, nb, ps);
    assert ([a] + ps)[1..] == ps;
    assert Elems([a] + ps) == {a} + Elems(ps);
  }

  /** With the chain at the end of the queue. */
  lemma AppendAdded(m0: Mem, m2: Mem, m3: Mem, head: Ptr, qss: seq<seq<Ptr>>, qs: seq<Ptr>, r: Record)
    requires WF(m2) && AllStored(m2, qss) && Records(m2, qss) == Records(m0, qss) && Stored(m2, qs) && RecordOf(m2, qs) == r
    requires Shows(m2, m3) && Queue(m3, head, qss + [qs]) && OnlyLinks(m2, m3)
    ensures AllStored(m3, qss + [qs]) && Records(m3, qss + [qs]) == Records(m0, qss) + [r]
  {
    hide WF, Bytes, Seg, Window, Shows, Stored, RecordOf, OnlyLinks, Place;
    var more := qss + [qs];
    forall i | 0 <= i < |more| ensures Stored(m3, more[i]) && RecordOf(m3, more[i]) == RecordOf(m2, more[i]) {
      PlaceUse(m3, more, i);
      assert i < |qss| ==> Stored(m2, qss[i]);
      RelinkedRecord(m2, m3, more[i]);
    }
    var rs := Records(m3, more);
    forall i | 0 <= i < |more| ensures rs[i] == (Records(m0, qss) + [r])[i] {}
  }

  lemma RelinkedRecord(m: Mem, m': Mem, qs: seq<Ptr>)
    requires Shows(m, m') && OnlyLinks(m, m') && Stored(m, qs) && List(m'.bufs, qs[0], qs)
    ensures Stored(m', qs) && RecordOf(m', qs) == RecordOf(m, qs)
  {
    hide Window, Bytes;
    SegIn(m'.bufs, qs[0], qs, NULL);
    assert forall q :: q in qs[1..] ==> q in qs;
    ShowsBytes(m, m', qs[1..]);
    SegAt(m'.bufs, qs[0], qs, NULL, 1);
    ShowsAt(m, m', qs[0]);
    assert qs[1] in qs && qs[1] in m.bufs;
  }

  lemma AppendFrames(m0: Mem, m1: Mem, m2: Mem, m3: Mem, a: Ptr, s: set<Ptr>)
    requires Frame(m0, m1, {}) && Frame(m1, m2, Elems([a])) && Frame(m2, m3, s) && a !in m0.bufs
    ensures Frame(m0, m3, s)
  {
    FrameTrans(m0, m1, m2, {}, Elems([a]), {});
    FrameTrans(m0, m2, m3, {}, s, s);
  }
}
