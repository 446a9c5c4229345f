/** Netbuf operations together: chains that share buffers do not disturb each other, and nothing leaks. */
module NetbufRuns {
  import opened Words
  import opened NetbufMem
  import opened NetbufCut
  import opened Netbufs

  /** Whatever an operation does inside `s`, a chain with no netbuf there keeps its netbufs and its bytes. */
  lemma OtherChainsKeep(m: Mem, m': Mem, s: set<Ptr>, p: Ptr, ps: seq<Ptr>)
    requires Frame(m, m', s) && Chain(m, p, ps) && Elems(ps) !! s
    ensures Chain(m', p, ps) && Bytes(m', ps) == Bytes(m, ps)
  {
    hide Frame, Bytes, Seg;
    assert forall q :: q in ps ==> q in Elems(ps);
    FrameList(m, m', s, p, ps);
  }

  lemma NoneRefer(bufs: map<Ptr, NetBuf>, d: Ptr)
    requires bufs == map[]
    ensures Refs(bufs, d) == {}
  {}

  /** With exact counters, no netbufs left means no buffers left. */
  lemma NothingLeft(m: Mem)
    requires WF(m) && m.bufs == map[]
    ensures m.datas == map[]
  {
    hide Refs;
    forall d | d in m.datas ensures false {
      NoneRefer(m.bufs, d);
    }
  }

  lemma CopyApart(m0: Mem, m: Mem, nb: Ptr, ps: seq<Ptr>, r: Ptr, rs: seq<Ptr>)
    requires Chain(m0, nb, ps) && Copied(m0, m, ps, r, rs, 0, |Bytes(m0, ps)|)
    ensures Elems(ps) !! Elems(rs) && Chain(m, nb, ps) && Bytes(m, ps) == Bytes(m0, ps) && Bytes(m, rs) == Bytes(m0, ps)
    ensures WF(m) && List(m.bufs, r, rs) && m.bufs.Keys == m0.bufs.Keys + Elems(rs) && r != NULL && rs != []
  {
    hide WF, Bytes, Seg, Frame;
    ElemsWithin(m0, nb, ps);
    assert Bytes(m0, ps)[0..|Bytes(m0, ps)|] == Bytes(m0, ps);
    OtherChainsKeep(m0, m, {}, nb, ps);
    ListHead(m.bufs, r, rs);
  }

  /** After the copy its netbufs are on buffers of the original's, so none of them is alone on its buffer. */
  lemma CopyShares(m0: Mem, m: Mem, nb: Ptr, ps: seq<Ptr>, r: Ptr, rs: seq<Ptr>, i: nat)
    requires Chain(m0, nb, ps) && Copied(m0, m, ps, r, rs, 0, |Bytes(m0, ps)|) && Aliased(m0, m, ps, rs, i)
    ensures Aliased(m, m, ps, rs, i) && forall k: nat :: k < |rs| ==> !Single(m, rs[k])
  {
    hide WF, Bytes, Seg, Frame, Single;
    CopyApart(m0, m, nb, ps, r, rs);
    forall k: nat | k < |rs| ensures SameBuffer(m, ps[i + k], m, rs[k]) && !Single(m, rs[k]) {
      assert SameBuffer(m0, ps[i + k], m, rs[k]);
      FrameAt(m0, m, {}, ps[i + k]);
      assert ps[i + k] in Elems(ps) && rs[k] in Elems(rs);
      Sharers(m, ps[i + k], rs[k]);
    }
  }

  /**
    A copy is on the buffers of the original, as `mid`, the memory between the calls, shows.  Cutting bytes
    out of the copy then moves none in place: it splits the netbuf, or is refused when memory runs out and the
    cut lies inside one netbuf.  The original keeps its bytes.
   */
  method CopyThenCut(pool: Netbufs, nb: Ptr, offset: nat, len: nat, supply: Supply, supply': Supply, ghost ps: seq<Ptr>)
      returns (copied: bool, cut: Ptr, ghost done: bool, ghost rs: seq<Ptr>, ghost cs: seq<Ptr>, ghost mid: Mem)
    requires WF(pool.m) && Chain(pool.m, nb, ps) && |Bytes(pool.m, ps)| > 0
    modifies pool
    ensures exists i: nat :: Holds(old(pool.m), ps, i, 0)
                             && (copied <==> Served(supply, Reach(old(pool.m), ps, i, |Bytes(old(pool.m), ps)|)))
                             && (copied ==> Aliased(mid, mid, ps, rs, i))
    ensures copied ==>
              && WF(mid) && Chain(mid, nb, ps) && Bytes(mid, rs) == Bytes(mid, ps) == Bytes(old(pool.m), ps)
              && mid.datas.Keys == old(pool.m).datas.Keys && (forall k: nat :: k < |rs| ==> !Single(mid, rs[k]))
    ensures copied ==>
              && Frame(mid, pool.m, Elems(rs)) && Elems(rs) !! Elems(ps)
              && WF(pool.m) && Chain(pool.m, nb, ps) && Bytes(pool.m, ps) == Bytes(old(pool.m), ps) && Chain(pool.m, cut, cs)
    ensures copied ==>
              (done <==>
                && 0 < len && offset + len <= |Bytes(old(pool.m), ps)|
                && ((supply'(0) && supply'(1)) || forall i: nat :: !Inside(mid, rs, i, offset, len)))
    ensures copied && done ==>
              offset + len <= |Bytes(old(pool.m), ps)| && Bytes(pool.m, cs) == Without(Bytes(old(pool.m), ps), offset, len)
    ensures copied && !done ==> Bytes(pool.m, cs) == Bytes(old(pool.m), ps)
  {
    hide WF, Frame, Bytes, Seg, Elems, Copied, Aliased, Reach, Served, Single;
    ghost var m0 := pool.m;
    ListNonEmpty(m0, nb, ps);
    var r;
    r, rs := pool.Copy(nb, 0, COPYALL, supply, ps);
    ghost var i: nat :| Holds(m0, ps, i, 0) && CopyEnds(m0, pool.m, ps, r, rs, i, 0, |Bytes(m0, ps)|, supply);
    mid := pool.m;
    copied, cut, done, cs := r != NULL, r, false, rs;
    if r == NULL {
      return;
    }
    CopyApart(m0, mid, nb, ps, r, rs);
    CopyShares(m0, mid, nb, ps, r, rs, i);
    SameDatas(m0, mid, ps, rs, i);
    var result;
    result, cut, done, cs := pool.CutCenter(r, offset, len, supply', rs);
    assert forall k: nat :: Inside(mid, rs, k, offset, len) ==> k < |rs|;
    OtherChainsKeep(mid, pool.m, Elems(rs), nb, ps);
  }

  lemma SameDatas(m0: Mem, m: Mem, ps: seq<Ptr>, rs: seq<Ptr>, i: nat)
    requires Aliased(m0, m, ps, rs, i)
    ensures m.datas.Keys == m0.datas.Keys
  {}

  /** A copy and the original are freed in either order; a memory that held only the original is empty then. */
  method CopyThenFree(pool: Netbufs, nb: Ptr, originalFirst: bool, supply: Supply, ghost ps: seq<Ptr>) returns (copied: bool)
    requires WF(pool.m) && Chain(pool.m, nb, ps) && |Bytes(pool.m, ps)| > 0 && pool.m.bufs.Keys == Elems(ps)
    modifies pool
    ensures exists i: nat :: Holds(old(pool.m), ps, i, 0)
                             && (copied <==> Served(supply, Reach(old(pool.m), ps, i, |Bytes(old(pool.m), ps)|)))
    ensures copied ==> pool.m == Mem(map[], map[])
  {
    hide WF, Safe, Stranded, Frame, Bytes, Seg, Elems, Copied, Aliased, Reach, Served;
    ghost var m0 := pool.m;
    ListNonEmpty(m0, nb, ps);
    var r; ghost var rs;
    r, rs := pool.Copy(nb, 0, COPYALL, supply, ps);
    ghost var i: nat :| Holds(m0, ps, i, 0) && CopyEnds(m0, pool.m, ps, r, rs, i, 0, |Bytes(m0, ps)|, supply);
    if r == NULL {
      return false;
    }
    CopyApart(m0, pool.m, nb, ps, r, rs);
    ghost var m1 := pool.m;
    if originalFirst {
      SafeIff(pool.m);
      pool.FreeChain(nb, ps);
      ApartList(m1, pool.m, Elems(ps), r, rs);
      SafeIff(pool.m);
      pool.FreeChain(r, rs);
    } else {
      SafeIff(pool.m);
      pool.FreeChain(r, rs);
      ApartList(m1, pool.m, Elems(rs), nb, ps);
      SafeIff(pool.m);
      pool.FreeChain(nb, ps);
    }
    NothingLeft(pool.m);
    copied := true;
  }

  /** One more netbuf, of one byte, in front of a chain. */
  method Front(pool: Netbufs, x: byte, nb: Ptr, ghost ps: seq<Ptr>) returns (r: Ptr)
    requires WF(pool.m) && Chain(pool.m, nb, ps)
    modifies pool
    ensures WF(pool.m) && r != NULL && r !in old(pool.m).bufs && Chain(pool.m, r, [r] + ps)
    ensures r in pool.m.bufs && |Window(pool.m, r)| == 1 && Bytes(pool.m, [r] + ps) == [x] + Bytes(old(pool.m), ps)
    ensures forall p :: p in old(pool.m).bufs ==> p in pool.m.bufs && Window(pool.m, p) == Window(old(pool.m), p)
  {
    hide WF, Frame, Bytes, Seg, Elems, Relinked, Window;
    r := pool.FromBuf([x], 1, _ => true);
    ghost var m1 := pool.m;
    OneOf(r);
    BytesOne(m1, r);
    OtherChainsKeep(old(pool.m), m1, {}, nb, ps);
    ElemsWithin(old(pool.m), nb, ps);
    var joined := pool.Concat(r, nb, [r], ps);
    FrameWindows(old(pool.m), m1);
    RelinkedWindows(m1, pool.m);
  }

  /**
    A copy of three netbufs with room for two of them: it fails, and the counter of the second one's buffer is
    too high.
   */
  method CopyLeaks() returns (pool: Netbufs, r: Ptr)
    ensures fresh(pool) && r == NULL && !WF(pool.m)
  {
    hide WF, Frame, Bytes, Seg, Elems, Reach, Served, CopyEnds, Window;
    pool := new Netbufs();
    BytesNil(pool.m);
    NoChain(pool.m);
    var c := Front(pool, 3, NULL, []);
    var b := Front(pool, 2, c, [c] + []);
    var a := Front(pool, 1, b, [b] + ([c] + []));
    ghost var m0, ps, rs := pool.m, [a] + ([b] + ([c] + [])), [];
    assert ps == [a, b, c];
    var supply: Supply := k => k < 2;
    r, rs := pool.Copy(a, 0, 3, supply, ps);
    ghost var i: nat :| Holds(m0, ps, i, 0) && CopyEnds(m0, pool.m, ps, r, rs, i, 0, 3, supply);
    ThreeNodes(m0, a, b, c, i);
    NoThird(m0, pool.m, ps, r, rs, i, supply);
  }

  lemma NoChain(m: Mem)
    ensures Chain(m, NULL, [])
  {}

  lemma FrameWindows(m: Mem, m': Mem)
    requires Frame(m, m', {})
    ensures forall p :: p in m.bufs ==> p in m'.bufs && Window(m', p) == Window(m, p)
  {
    hide Window, Buffer;
  }

  lemma RelinkedWindows(m: Mem, m': Mem)
    requires Relinked(m, m')
    ensures forall p :: p in m.bufs ==> p in m'.bufs && Window(m', p) == Window(m, p)
  {
    hide Window;
  }

  lemma ThreeNodes(m: Mem, a: Ptr, b: Ptr, c: Ptr, i: nat)
    requires |Window(m, a)| == |Window(m, b)| == |Window(m, c)| == 1 && Holds(m, [a, b, c], i, 0)
    ensures Reach(m, [a, b, c], i, 3) == 3
  {
    hide Window;
    var ps := [a, b, c];
    BytesNil(m);
    assert ps[..0] == [] && ps[..1] == [a] && ps[..2] == [a, b] && ps[..3] == [a, b, c];
    BytesAt(m, ps, 0);
    BytesAt(m, ps, 1);
    HoldsOne(m, ps, 0, i, 0);
    assert Reach(m, ps, 2, 3) == 1;
    assert Reach(m, ps, 1, 3) == 2;
  }

  lemma NoThird(m0: Mem, m: Mem, ps: seq<Ptr>, r: Ptr, rs: seq<Ptr>, i: nat, supply: Supply)
    requires CopyEnds(m0, m, ps, r, rs, i, 0, 3, supply) && Reach(m0, ps, i, 3) == 3 && !supply(2)
    ensures r == NULL
  {
    hide WF, Bytes, Copied, Aliased, Abandoned, Reach;
  }

  lemma OneOf(p: Ptr)
    ensures Elems([p]) == {p}
  {}

  lemma ApartList(m: Mem, m': Mem, s: set<Ptr>, p: Ptr, ps: seq<Ptr>)
    requires Frame(m, m', s) && List(m.bufs, p, ps) && Elems(ps) !! s
    ensures List(m'.bufs, p, ps)
  {
    hide Frame, Bytes, Seg;
    assert forall q :: q in ps ==> q in Elems(ps);
    FrameList(m, m', s, p, ps);
  }
}
