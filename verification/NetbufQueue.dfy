/** Queues of netbuf chains (fnet_netbuf_add_chain and fnet_netbuf_del_chain): heads linked by `nextChain`. */
module NetbufQueue {
  import opened NetbufMem
  import opened Netbufs

  /** The head of chain `i`, or null past the last. */
  function HeadOf(qss: seq<seq<Ptr>>, i: nat): Ptr {
    if i < |qss| && qss[i] != [] then qss[i][0] else NULL
  }

  /** Chain `i` is a chain, and its head leads to the next one. */
  ghost predicate Place(m: Mem, qss: seq<seq<Ptr>>, i: nat) {
    && i < |qss| && qss[i] != [] && qss[i][0] in m.bufs && Chain(m, qss[i][0], qss[i])
    && m.bufs[qss[i][0]].nextChain == HeadOf(qss, i + 1)
  }

  ghost predicate Apart(qss: seq<seq<Ptr>>) {
    forall i, j :: 0 <= i < j < |qss| ==> Elems(qss[i]) !! Elems(qss[j])
  }

  /** The chains `qss`, one after the other from `head`, with no netbuf in two of them. */
  ghost predicate Queue(m: Mem, head: Ptr, qss: seq<seq<Ptr>>) {
    head == HeadOf(qss, 0) && Apart(qss) && forall i :: 0 <= i < |qss| ==> Place(m, qss, i)
  }

  /** The netbufs of all chains. */
  ghost function Nodes(qss: seq<seq<Ptr>>): set<Ptr> {
    set i, p | 0 <= i < |qss| && p in Elems(qss[i]) :: p
  }

  lemma QueueNil(m: Mem)
    ensures Queue(m, NULL, []) && Nodes([]) == {}
  {}

  lemma HeadIn(m: Mem, head: Ptr, qss: seq<seq<Ptr>>)
    requires Queue(m, head, qss)
    ensures head == NULL <==> qss == []
    ensures qss != [] ==> Place(m, qss, 0) && qss[0][0] == head && head in m.bufs && List(m.bufs, head, qss[0])
  {
    assert qss != [] ==> Place(m, qss, 0);
  }

  lemma PlaceUse(m: Mem, qss: seq<seq<Ptr>>, i: nat)
    requires Place(m, qss, i)
    ensures i < |qss| && qss[i] != [] && qss[i][0] in m.bufs && qss[i][0] != NULL && Chain(m, qss[i][0], qss[i]) && qss[i][0] in Elems(qss[i])
    ensures m.bufs[qss[i][0]].nextChain == HeadOf(qss, i + 1)
  {}

  /** A change outside the queue's netbufs leaves the queue. */
  lemma QueueFrame(m: Mem, m': Mem, s: set<Ptr>, head: Ptr, qss: seq<seq<Ptr>>)
    requires Queue(m, head, qss) && Frame(m, m', s) && Nodes(qss) !! s
    ensures Queue(m', head, qss)
    ensures forall i :: 0 <= i < |qss| ==> Window(m', HeadOf(qss, i)) == Window(m, HeadOf(qss, i)) && Bytes(m', qss[i]) == Bytes(m, qss[i])
  {
    hide Frame, Seg, Bytes, Window;
    forall i | 0 <= i < |qss|
      ensures Place(m', qss, i) && Window(m', HeadOf(qss, i)) == Window(m, HeadOf(qss, i)) && Bytes(m', qss[i]) == Bytes(m, qss[i])
    {
      PlaceFrame(m, m', s, qss, i);
    }
  }

  lemma PlaceFrame(m: Mem, m': Mem, s: set<Ptr>, qss: seq<seq<Ptr>>, i: nat)
    requires Place(m, qss, i) && Frame(m, m', s) && Elems(qss[i]) !! s
    ensures Place(m', qss, i) && Window(m', HeadOf(qss, i)) == Window(m, HeadOf(qss, i)) && Bytes(m', qss[i]) == Bytes(m, qss[i])
  {
    hide Frame, Seg, Bytes, Window;
    assert forall q :: q in qss[i] ==> q in Elems(qss[i]);
    FrameList(m, m', s, qss[i][0], qss[i]);
    FrameAt(m, m', s, qss[i][0]);
  }

  /** A queue from its second chain on. */
  lemma QueueRest(m: Mem, head: Ptr, qss: seq<seq<Ptr>>)
    requires Queue(m, head, qss) && qss != []
    ensures head in m.bufs && Queue(m, m.bufs[head].nextChain, qss[1..]) && Nodes(qss[1..]) !! Elems(qss[0])
    ensures Nodes(qss) == Nodes(qss[1..]) + Elems(qss[0])
  {
    hide Chain, Elems;
    var rest := qss[1..];
    assert Place(m, qss, 0);
    forall i | 0 <= i < |rest| ensures Place(m, rest, i) {
      assert Place(m, qss, i + 1);
      assert HeadOf(rest, i + 1) == HeadOf(qss, i + 2);
    }
    assert HeadOf(rest, 0) == HeadOf(qss, 1);
    forall p | p in Nodes(qss) ensures p in Nodes(rest) + Elems(qss[0]) {
      var i :| 0 <= i < |qss| && p in Elems(qss[i]);
      if i > 0 {
        assert p in Elems(rest[i - 1]);
      }
    }
    forall p | p in Nodes(rest) ensures p in Nodes(qss) && p !in Elems(qss[0]) {
      var i :| 0 <= i < |rest| && p in Elems(rest[i]);
      assert p in Elems(qss[i + 1]);
    }
  }

  lemma NodesMore(qss: seq<seq<Ptr>>, qs: seq<Ptr>)
    ensures Nodes(qss + [qs]) == Nodes(qss) + Elems(qs)
    ensures Apart(qss) && Nodes(qss) !! Elems(qs) ==> Apart(qss + [qs])
    ensures forall i :: 0 <= i < |qss| ==> Elems(qss[i]) <= Nodes(qss)
  {
    hide Elems;
    var more := qss + [qs];
    forall p | p in Nodes(more) ensures p in Nodes(qss) + Elems(qs) {
      var i :| 0 <= i < |more| && p in Elems(more[i]);
      if i < |qss| {
        assert p in Elems(qss[i]);
      }
    }
    forall p | p in Nodes(qss) + Elems(qs) ensures p in Nodes(more) {
      if p in Nodes(qss) {
        var i :| 0 <= i < |qss| && p in Elems(qss[i]);
        assert p in Elems(more[i]);
      } else {
        assert p in Elems(more[|qss|]);
      }
    }
  }

  /** A chain linked behind the last one of a queue. */
  lemma LinkLast(m: Mem, head: Ptr, qss: seq<seq<Ptr>>, qs: seq<Ptr>, nb: Ptr)
    requires WF(m) && Queue(m, head, qss) && qss != [] && Chain(m, nb, qs) && nb in m.bufs && qs != []
    requires m.bufs[nb].nextChain == NULL && Nodes(qss) !! Elems(qs)
    ensures HeadOf(qss, |qss| - 1) in m.bufs
    ensures var last := HeadOf(qss, |qss| - 1);
            var m' := Edit(m, last, m.bufs[last].(nextChain := nb));
            && WF(m') && Queue(m', head, qss + [qs]) && Shows(m, m') && Frame(m, m', {last}) && m'.bufs.Keys == m.bufs.Keys
  {
    hide WF, Bytes, Seg, Frame, Shows, Elems, Nodes, Place, Apart;
    var k := |qss| - 1;
    PlaceUse(m, qss, k);
    var last := HeadOf(qss, k);
    var n := m.bufs[last].(nextChain := nb);
    LinkOk(m, last, n);
    NodesMore(qss, qs);
    forall i | 0 <= i < |qss| + 1 ensures Place(Edit(m, last, n), qss + [qs], i) {
      LinkPlace(m, qss, qs, nb, i);
    }
  }

  lemma LinkPlace(m: Mem, qss: seq<seq<Ptr>>, qs: seq<Ptr>, nb: Ptr, i: nat)
    requires WF(m) && qss != [] && (forall j :: 0 <= j < |qss| ==> Place(m, qss, j)) && Apart(qss)
    requires Chain(m, nb, qs) && nb in m.bufs && qs != [] && m.bufs[nb].nextChain == NULL && Nodes(qss) !! Elems(qs)
    requires i <= |qss|
    ensures HeadOf(qss, |qss| - 1) in m.bufs
    ensures var last := HeadOf(qss, |qss| - 1); Place(Edit(m, last, m.bufs[last].(nextChain := nb)), qss + [qs], i)
  {
    hide WF, Bytes, Seg, Frame, Shows, Nodes, Elems, Place;
    var k := |qss| - 1;
    var more := qss + [qs];
    PlaceUse(m, qss, k);
    var last := HeadOf(qss, k);
    var n := m.bufs[last].(nextChain := nb);
    ListHead(m.bufs, nb, qs);
    if i < |qss| {
      PlaceUse(m, qss, i);
    }
    var p := if i < |qss| then qss[i][0] else nb;
    LinkChain(m, last, n, p, more[i]);
    HeadsDiffer(m, qss, qs, nb, i);
    PlaceIs(Edit(m, last, n), more, i);
  }

  lemma PlaceIs(m: Mem, qss: seq<seq<Ptr>>, i: nat)
    requires i < |qss| && qss[i] != [] && qss[i][0] in m.bufs && Chain(m, qss[i][0], qss[i])
    requires m.bufs[qss[i][0]].nextChain == HeadOf(qss, i + 1)
    ensures Place(m, qss, i)
  {}

  lemma HeadsDiffer(m: Mem, qss: seq<seq<Ptr>>, qs: seq<Ptr>, nb: Ptr, i: nat)
    requires qss != [] && (forall j :: 0 <= j < |qss| ==> Place(m, qss, j)) && Apart(qss)
    requires qs != [] && qs[0] == nb && Nodes(qss) !! Elems(qs) && i <= |qss|
    ensures i < |qss| ==> qss[i] != [] && (qss[i][0] == HeadOf(qss, |qss| - 1) <==> i == |qss| - 1)
    ensures nb != HeadOf(qss, |qss| - 1)
    ensures HeadOf(qss + [qs], i + 1) == if i < |qss| - 1 then HeadOf(qss, i + 1) else if i == |qss| - 1 then nb else NULL
  {
    hide Elems, Chain, Nodes;
    NodesMore(qss, qs);
    assert nb in Elems(qs) by { InElems(qs, 0); }
    var k := |qss| - 1;
    assert Place(m, qss, k);
    InElems(qss[k], 0);
    if i < |qss| {
      assert Place(m, qss, i);
      InElems(qss[i], 0);
    }
  }

  lemma InElems(ps: seq<Ptr>, i: nat)
    requires i < |ps|
    ensures ps[i] in Elems(ps)
  {}

  /** Changing the queue link of a netbuf leaves every chain. */
  lemma LinkChain(m: Mem, p: Ptr, n: NetBuf, q: Ptr, qs: seq<Ptr>)
    requires WF(m) && p in m.bufs && n == m.bufs[p].(nextChain := n.nextChain) && Chain(m, q, qs)
    ensures Chain(Edit(m, p, n), q, qs)
  {
    hide WF, Bytes, Frame, Shows;
    LinkOk(m, p, n);
    SegIn(m.bufs, q, qs, NULL);
    SegSame(m.bufs, Edit(m, p, n).bufs, q, qs, NULL);
    ShowsBytes(m, Edit(m, p, n), qs);
  }

  /** fnet_netbuf_add_chain: the chain goes to the end of the queue. */
  method AddChain(pool: Netbufs, head: Ptr, nb: Ptr, ghost qss: seq<seq<Ptr>>, ghost qs: seq<Ptr>) returns (r: Ptr)
    requires WF(pool.m) && Queue(pool.m, head, qss) && Chain(pool.m, nb, qs) && nb in pool.m.bufs && qs != []
    requires pool.m.bufs[nb].nextChain == NULL && Nodes(qss) !! Elems(qs)
    modifies pool
    ensures WF(pool.m) && Queue(pool.m, r, qss + [qs]) && Shows(old(pool.m), pool.m) && OnlyLinks(old(pool.m), pool.m)
    ensures pool.m.bufs.Keys == old(pool.m).bufs.Keys && Frame(old(pool.m), pool.m, Nodes(qss))
  {
    hide WF, Bytes, Seg, Frame, Shows, Elems, Nodes, Place, Apart;
    HeadIn(pool.m, head, qss);
    FrameMore(pool.m, Nodes(qss));
    ShowsSelf(pool.m);
    if head == NULL {
      OneQueue(pool.m, nb, qs);
      assert qss + [qs] == [qs];
      return nb;
    }
    var cur := head;
    ghost var i: nat := 0;
    PlaceUse(pool.m, qss, 0);
    while pool.m.bufs[cur].nextChain != NULL
      invariant pool.m == old(pool.m) && i < |qss| && cur == HeadOf(qss, i) && cur in pool.m.bufs
      invariant pool.m.bufs[cur].nextChain == HeadOf(qss, i + 1)
      decreases |qss| - i
    {
      assert i + 1 < |qss|;
      PlaceUse(pool.m, qss, i + 1);
      cur := pool.m.bufs[cur].nextChain;
      i := i + 1;
    }
    if i + 1 < |qss| {
      PlaceUse(pool.m, qss, i + 1);
      assert false;
    }
    LinkLast(pool.m, head, qss, qs, nb);
    LastNode(pool.m, qss);
    FrameWider(pool.m, Edit(pool.m, cur, pool.m.bufs[cur].(nextChain := nb)), {cur}, Nodes(qss));
    pool.m := Edit(pool.m, cur, pool.m.bufs[cur].(nextChain := nb));
    r := head;
  }

  /** The first chain is freed, and the others stay. */
  method DelFirst(pool: Netbufs, head: Ptr, ghost qss: seq<seq<Ptr>>) returns (r: Ptr)
    requires WF(pool.m) && Queue(pool.m, head, qss) && qss != []
    modifies pool
    ensures WF(pool.m) && Queue(pool.m, r, qss[1..]) && Frame(old(pool.m), pool.m, Elems(qss[0]))
    ensures pool.m.bufs == old(pool.m).bufs - Elems(qss[0])
    ensures forall i :: 1 <= i < |qss| ==> Window(pool.m, HeadOf(qss, i)) == Window(old(pool.m), HeadOf(qss, i)) && Bytes(pool.m, qss[i]) == Bytes(old(pool.m), qss[i])
  {
    hide WF, Safe, Stranded, Bytes, Seg, Frame, Elems, Nodes, Place, Apart, Window;
    HeadIn(pool.m, head, qss);
    QueueRest(pool.m, head, qss);
    var next := pool.m.bufs[head].nextChain;
    SafeIff(pool.m);
    pool.FreeChain(head, qss[0]);
    QueueFrame(old(pool.m), pool.m, Elems(qss[0]), next, qss[1..]);
    assert forall i :: 1 <= i < |qss| ==> qss[i] == qss[1..][i - 1] && HeadOf(qss, i) == HeadOf(qss[1..], i - 1);
    r := next;
  }

  /** fnet_netbuf_del_chain: a chain of the queue is freed, and the others close up. */
  method DelChain(pool: Netbufs, head: Ptr, nb: Ptr, ghost qss: seq<seq<Ptr>>, ghost k: nat) returns (r: Ptr)
    requires WF(pool.m) && Queue(pool.m, head, qss) && k < |qss| && nb == HeadOf(qss, k)
    modifies pool
    ensures WF(pool.m) && Queue(pool.m, r, qss[..k] + qss[k + 1..])
    ensures pool.m.bufs.Keys == old(pool.m).bufs.Keys - Elems(qss[k])
    ensures forall i :: 0 <= i < |qss| && i != k ==>
              Window(pool.m, HeadOf(qss, i)) == Window(old(pool.m), HeadOf(qss, i)) && Bytes(pool.m, qss[i]) == Bytes(old(pool.m), qss[i])
    ensures Frame(old(pool.m), pool.m, if k == 0 then Elems(qss[0]) else Nodes(qss))
  {
    hide WF, Safe, Stranded, Bytes, Seg, Frame, Elems, Nodes, Place, Apart, Window, Shows, Queue;
    HeadIn(pool.m, head, qss);
    QueuePlaces(pool.m, head, qss);
    PlaceUse(pool.m, qss, k);
    HeadsApart(pool.m, qss);
    if head == nb {
      QueueRest(pool.m, head, qss);
      assert qss[..0] + qss[0 + 1..] == qss[1..];
      r := DelFirst(pool, head, qss);
      return;
    }
    var cur := head;
    ghost var i: nat := 0;
    PlaceUse(pool.m, qss, 0);
    while pool.m.bufs[cur].nextChain != nb
      invariant pool.m == old(pool.m) && i < k && cur == HeadOf(qss, i) && cur in pool.m.bufs
      invariant pool.m.bufs[cur].nextChain == HeadOf(qss, i + 1)
      decreases |qss| - i
    {
      PlaceUse(pool.m, qss, i + 1);
      cur := pool.m.bufs[cur].nextChain;
      i := i + 1;
    }
    var next := pool.m.bufs[nb].nextChain;
    SafeIff(pool.m);
    pool.FreeChain(nb, qss[k]);
    CutQueue(old(pool.m), pool.m, head, qss, k);
    pool.m := Edit(pool.m, cur, pool.m.bufs[cur].(nextChain := next));
    r := head;
  }

  lemma QueuePlaces(m: Mem, head: Ptr, qss: seq<seq<Ptr>>)
    requires Queue(m, head, qss)
    ensures Apart(qss) && forall i :: 0 <= i < |qss| ==> Place(m, qss, i)
  {}

  /** The heads of a queue differ. */
  lemma HeadsApart(m: Mem, qss: seq<seq<Ptr>>)
    requires Apart(qss) && forall i :: 0 <= i < |qss| ==> Place(m, qss, i)
    ensures forall i, j :: 0 <= i < |qss| && 0 <= j < |qss| && HeadOf(qss, i) == HeadOf(qss, j) ==> i == j
    ensures forall i :: 0 <= i < |qss| ==> HeadOf(qss, i) != NULL
  {
    hide Chain, Elems, Place;
    forall i | 0 <= i < |qss| ensures HeadOf(qss, i) in Elems(qss[i]) && HeadOf(qss, i) != NULL {
      PlaceUse(m, qss, i);
    }
  }

  lemma FrameFirst(qss: seq<seq<Ptr>>)
    ensures forall i :: 0 <= i < |qss| ==> Elems(qss[i]) <= Nodes(qss)
  {
    hide Elems;
  }

  /** Chain `k` is gone: the one before it is linked to the one after it. */
  lemma CutQueue(m: Mem, m1: Mem, head: Ptr, qss: seq<seq<Ptr>>, k: nat)
    requires Queue(m, head, qss) && 0 < k < |qss| && WF(m1) && Frame(m, m1, Elems(qss[k])) && m1.bufs == m.bufs - Elems(qss[k])
    ensures HeadOf(qss, k) in m.bufs && HeadOf(qss, k - 1) in m1.bufs
    ensures m.bufs[HeadOf(qss, k)].nextChain == HeadOf(qss, k + 1)
    ensures var cur := HeadOf(qss, k - 1);
            var m' := Edit(m1, cur, m1.bufs[cur].(nextChain := HeadOf(qss, k + 1)));
            && WF(m') && Queue(m', head, qss[..k] + qss[k + 1..]) && m'.bufs.Keys == m.bufs.Keys - Elems(qss[k])
            && (forall i :: 0 <= i < |qss| && i != k ==>
                  Window(m', HeadOf(qss, i)) == Window(m, HeadOf(qss, i)) && Bytes(m', qss[i]) == Bytes(m, qss[i]))
            && Frame(m, m', Nodes(qss))
  {
    hide WF, Bytes, Seg, Frame, Elems, Nodes, Place, Apart, Window, Shows;
    QueuePlaces(m, head, qss);
    PlaceUse(m, qss, k);
    PlaceUse(m, qss, k - 1);
    ApartFrom(qss, k);
    FrameFirst(qss);
    PlaceFrame(m, m1, Elems(qss[k]), qss, k - 1);
    PlaceUse(m1, qss, k - 1);
    var cur := HeadOf(qss, k - 1);
    var n := m1.bufs[cur].(nextChain := HeadOf(qss, k + 1));
    var m' := Edit(m1, cur, n);
    LinkOk(m1, cur, n);
    var less := qss[..k] + qss[k + 1..];
    forall i | 0 <= i < |qss| && i != k
      ensures Window(m', HeadOf(qss, i)) == Window(m, HeadOf(qss, i)) && Bytes(m', qss[i]) == Bytes(m, qss[i])
    {
      PlaceFrame(m, m1, Elems(qss[k]), qss, i);
      CutPlace(m, m1, m', head, qss, k, i);
    }
    forall i | 0 <= i < |less| ensures Place(m', less, i) {
      var j := if i < k then i else i + 1;
      PlaceFrame(m, m1, Elems(qss[k]), qss, j);
      CutPlace(m, m1, m', head, qss, k, j);
    }
    ApartLess(qss, k);
    FrameTrans(m, m1, m', Elems(qss[k]), {cur}, Nodes(qss));
  }

  lemma ApartFrom(qss: seq<seq<Ptr>>, k: nat)
    requires Apart(qss) && k < |qss|
    ensures forall i :: 0 <= i < |qss| && i != k ==> Elems(qss[i]) !! Elems(qss[k])
  {
    hide Elems;
  }

  lemma ApartLess(qss: seq<seq<Ptr>>, k: nat)
    requires Apart(qss) && k < |qss|
    ensures Apart(qss[..k] + qss[k + 1..])
  {
    hide Elems;
  }

  lemma CutPlace(m: Mem, m1: Mem, m': Mem, head: Ptr, qss: seq<seq<Ptr>>, k: nat, i: nat)
    requires Queue(m, head, qss) && 0 < k < |qss| && WF(m1) && i < |qss| && i != k && Place(m1, qss, i)
    requires var cur := HeadOf(qss, k - 1);
             cur in m1.bufs && m' == Edit(m1, cur, m1.bufs[cur].(nextChain := HeadOf(qss, k + 1)))
    ensures Window(m', HeadOf(qss, i)) == Window(m1, HeadOf(qss, i)) && Bytes(m', qss[i]) == Bytes(m1, qss[i])
    ensures Place(m', qss[..k] + qss[k + 1..], if i < k then i else i - 1)
  {
    hide WF, Bytes, Seg, Frame, Elems, Nodes, Place, Apart, Window, Shows;
    QueuePlaces(m, head, qss);
    HeadsApart(m, qss);
    PlaceUse(m1, qss, i);
    var cur, less, j := HeadOf(qss, k - 1), qss[..k] + qss[k + 1..], if i < k then i else i - 1;
    var n := m1.bufs[cur].(nextChain := HeadOf(qss, k + 1));
    LinkOk(m1, cur, n);
    LinkChain(m1, cur, n, qss[i][0], qss[i]);
    SegIn(m1.bufs, qss[i][0], qss[i], NULL);
    ShowsBytes(m1, m', qss[i]);
    ShowsAt(m1, m', qss[i][0]);
    assert less[j] == qss[i];
    LessHeads(qss, k, i);
    assert qss[i][0] == HeadOf(qss, i) && (i != k - 1 ==> HeadOf(qss, i) != cur);
    PlaceIs(m', less, j);
  }

  lemma LessHeads(qss: seq<seq<Ptr>>, k: nat, i: nat)
    requires 0 < k < |qss| && i < |qss| && i != k
    ensures var less, j := qss[..k] + qss[k + 1..], if i < k then i else i - 1;
            HeadOf(less, j + 1) == if i == k - 1 then HeadOf(qss, k + 1) else HeadOf(qss, i + 1)
  {}

  /** Nothing but queue links has changed. */
  ghost predicate OnlyLinks(m: Mem, m': Mem) {
    m'.bufs.Keys == m.bufs.Keys && forall p :: p in m.bufs ==> m'.bufs[p] == m.bufs[p].(nextChain := m'.bufs[p].nextChain)
  }

  lemma ShowsSelf(m: Mem)
    ensures Shows(m, m)
  {}

  lemma OneQueue(m: Mem, nb: Ptr, qs: seq<Ptr>)
    requires Chain(m, nb, qs) && nb in m.bufs && qs != [] && m.bufs[nb].nextChain == NULL
    ensures Queue(m, nb, [qs])
  {
    hide Bytes;
    ListHead(m.bufs, nb, qs);
    PlaceIs(m, [qs], 0);
  }

  lemma LastNode(m: Mem, qss: seq<seq<Ptr>>)
    requires qss != [] && Place(m, qss, |qss| - 1)
    ensures HeadOf(qss, |qss| - 1) in Nodes(qss)
  {
    hide Chain;
    InElems(qss[|qss| - 1], 0);
  }
}
