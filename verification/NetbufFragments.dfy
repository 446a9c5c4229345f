/**
  Fragmenting and joining on netbuf memory (Sources/fnet_stack/stack/fnet_ip.c): fragments are copies that
  share the datagram's buffers, and every reference is given back once.  The bytes of each new header are
  given; memory does not run out.
 */
module NetbufFragments {
  import opened Words
  import opened NetbufMem
  import opened NetbufCut
  import opened NetbufQueue
  import opened Netbufs
  import opened NetbufRuns
  import opened IpFragments

  // ----- pieces of a payload

  ghost function Flat<T>(texts: seq<seq<T>>): seq<T> {
    if texts == [] then [] else Flat(texts[..|texts| - 1]) + texts[|texts| - 1]
  }

  lemma {:induction false} FlatJoin<T>(a: seq<seq<T>>, b: seq<seq<T>>)
    ensures Flat(a + b) == Flat(a) + Flat(b)
  {
    if b == [] {
      assert a + b == a;
    } else {
      FlatJoin(a, b[..|b| - 1]);
      assert (a + b)[..|a + b| - 1] == a + b[..|b| - 1];
    }
  }

  lemma FlatOne<T>(t: seq<T>)
    ensures Flat([t]) == t
  {
    assert [t][..0] == [] && Flat<T>([]) == [];
  }

  /** The pieces make up the whole. */
  lemma {:induction false} CutWhole(b: seq<byte>, n: nat)
    requires 0 < n
    ensures Flat(Cut(b, n)) == b
    decreases |b|
  {
    hide Flat;
    if |b| <= n {
      FlatOne(b);
    } else {
      CutWhole(b[n..], n);
      FlatJoin([b[..n]], Cut(b[n..], n));
      FlatOne(b[..n]);
      assert b[..n] + b[n..] == b;
    }
  }

  /** No piece of anything is empty. */
  lemma {:induction false} CutPieces(b: seq<byte>, n: nat)
    requires 0 < n && b != []
    ensures forall i :: 0 <= i < |Cut(b, n)| ==> Cut(b, n)[i] != []
    decreases |b|
  {
    if |b| > n {
      CutPieces(b[n..], n);
    }
  }

  // ----- chains with given bytes

  ghost predicate Parcel(m: Mem, head: Ptr, qs: seq<Ptr>, text: seq<byte>) {
    head != NULL && qs != [] && Chain(m, head, qs) && Bytes(m, qs) == text
  }

  /** Chains apart from each other, from `heads`, that show `texts`. */
  ghost predicate Parcels(m: Mem, heads: seq<Ptr>, qss: seq<seq<Ptr>>, texts: seq<seq<byte>>) {
    && |heads| == |qss| == |texts| && Apart(qss)
    && forall i :: 0 <= i < |qss| ==> Parcel(m, heads[i], qss[i], texts[i])
  }

  lemma ParcelFrame(m: Mem, m': Mem, s: set<Ptr>, head: Ptr, qs: seq<Ptr>, text: seq<byte>)
    requires Parcel(m, head, qs, text) && Frame(m, m', s) && Elems(qs) !! s
    ensures Parcel(m', head, qs, text)
  {
    hide Frame, Bytes, Seg;
    OtherChainsKeep(m, m', s, head, qs);
  }

  lemma NodesHas(qss: seq<seq<Ptr>>, i: nat)
    requires i < |qss|
    ensures Elems(qss[i]) <= Nodes(qss)
  {}

  lemma ParcelsFrame(m: Mem, m': Mem, s: set<Ptr>, heads: seq<Ptr>, qss: seq<seq<Ptr>>, texts: seq<seq<byte>>)
    requires Parcels(m, heads, qss, texts) && Frame(m, m', s) && Nodes(qss) !! s
    ensures Parcels(m', heads, qss, texts)
  {
    hide Frame, Parcel, Nodes, Elems;
    forall i | 0 <= i < |qss| ensures Parcel(m', heads[i], qss[i], texts[i]) {
      NodesHas(qss, i);
      ParcelFrame(m, m', s, heads[i], qss[i], texts[i]);
    }
  }

  lemma ParcelsAdd(m: Mem, heads: seq<Ptr>, qss: seq<seq<Ptr>>, texts: seq<seq<byte>>, head: Ptr, qs: seq<Ptr>, text: seq<byte>)
    requires Parcels(m, heads, qss, texts) && Parcel(m, head, qs, text) && Nodes(qss) !! Elems(qs)
    ensures Parcels(m, heads + [head], qss + [qs], texts + [text]) && Nodes(qss + [qs]) == Nodes(qss) + Elems(qs)
  {
    hide Parcel, Nodes, Elems;
    NodesMore(qss, qs);
  }

  // ----- what the pool answers

  /** The netbuf, from netbuf `i` on, that holds byte `k` of the chain. */
  ghost function NodeAt(m: Mem, ps: seq<Ptr>, i: nat, k: nat): nat
    decreases |ps| - i
  {
    if i + 1 >= |ps| || k < |Bytes(m, ps[..i + 1])| then i else NodeAt(m, ps, i + 1, k)
  }

  lemma {:induction false} NodeHolds(m: Mem, ps: seq<Ptr>, j: nat, i: nat, k: nat)
    requires j <= i && Holds(m, ps, i, k)
    ensures NodeAt(m, ps, j, k) == i
    decreases i - j
  {
    hide Bytes;
    if j < i {
      PrefixMono(m, ps, j + 1, i);
      NodeHolds(m, ps, j + 1, i, k);
    }
  }

  /** Where a copy of bytes from `at` begins, and the netbufs it takes. */
  ghost function From(m: Mem, ps: seq<Ptr>, at: nat): nat {
    NodeAt(m, ps, 0, at)
  }

  ghost function Need(m: Mem, ps: seq<Ptr>, at: nat, end: nat): nat {
    Reach(m, ps, From(m, ps, at), end)
  }

  /** Whether the pool serves the header and the copy of a fragment. */
  ghost predicate Makes(m: Mem, ps: seq<Ptr>, at: nat, end: nat, header: Supply, copy: Supply) {
    header(0) && header(1) && Served(copy, Need(m, ps, at, end))
  }

  /**
    What is left of fragmenting the bytes of `ps` when memory ran out at the fragment from `at`, whose copy had
    made `made` netbufs: no netbuf that was not there before, and a counter too high on just the buffers of the
    second and later ones of them.
   */
  ghost predicate GaveOut(m0: Mem, m: Mem, ps: seq<Ptr>, at: nat, made: nat, header: Supply, copy: Supply) {
    && Safe(m) && (if header(0) && header(1) then Served(copy, made) && !copy(made) else made == 0)
    && (made > 0 ==> From(m0, ps, at) + made <= |ps|)
    && forall d :: Stranded(m, d) <==> Passed(m0, ps, From(m0, ps, at), made, d)
  }

  ghost predicate Passed(m: Mem, ps: seq<Ptr>, i: nat, made: nat, d: Ptr) {
    exists j: nat :: i < j < i + made && j < |ps| && OnBuffer(m, ps[j], d)
  }

  // ----- fragmenting

  /**
    A fragment made by copying: its header is on a buffer that is new, and the netbufs after it are on the
    buffers of the netbufs of `ps` from the `i`-th on.
   */
  ghost predicate SharesFrom(m0: Mem, ps: seq<Ptr>, i: nat, m: Mem, qs: seq<Ptr>) {
    && qs != [] && qs[0] in m.bufs && m.bufs[qs[0]].data !in m0.datas && i + |qs| <= |ps| + 1
    && forall k: nat :: 1 <= k < |qs| ==> SameBuffer(m0, ps[i + k - 1], m, qs[k])
  }

  ghost predicate Shares(m0: Mem, ps: seq<Ptr>, m: Mem, qs: seq<Ptr>) {
    exists i: nat :: SharesFrom(m0, ps, i, m, qs)
  }

  /**
    One fragment: a header in a buffer of its own, in front of a copy, netbuf by netbuf on the buffers of the
    original.  It is null, with the header freed again, exactly when the pool refuses one of the allocations.
   */
  method MakeFragment(pool: Netbufs, nb: Ptr, header: seq<byte>, offset: nat, length: nat, forHeader: Supply, forCopy: Supply,
                      ghost ps: seq<Ptr>)
      returns (head: Ptr, ghost qs: seq<Ptr>, ghost made: nat)
    requires WF(pool.m) && Chain(pool.m, nb, ps) && 0 < length && offset + length <= |Bytes(pool.m, ps)|
    modifies pool
    ensures Frame(old(pool.m), pool.m, {})
    ensures head != NULL <==> Makes(old(pool.m), ps, offset, offset + length, forHeader, forCopy)
    ensures head != NULL ==>
              && WF(pool.m) && Parcel(pool.m, head, qs, header + Bytes(old(pool.m), ps)[offset..offset + length])
              && pool.m.bufs.Keys == old(pool.m).bufs.Keys + Elems(qs) && Elems(qs) !! old(pool.m).bufs.Keys
    ensures head != NULL ==>
              && SharesFrom(old(pool.m), ps, From(old(pool.m), ps, offset), pool.m, qs)
              && pool.m.datas.Keys == old(pool.m).datas.Keys + {pool.m.bufs[qs[0]].data}
    ensures head == NULL ==>
              pool.m.bufs == old(pool.m).bufs && GaveOut(old(pool.m), pool.m, ps, offset, made, forHeader, forCopy)
  {
    hide WF, Safe, Stranded, Frame, Bytes, Seg, Elems, Copied, Aliased, Reach, Relinked, CopyEnds, SharesFrom, Makes, GaveOut, From;
    ghost var m0 := pool.m;
    ListNonEmpty(m0, nb, ps);
    FrameSelf(m0);
    qs, made := [], 0;
    head := pool.FromBuf(header, |header|, forHeader);
    ghost var m1 := pool.m;
    if head == NULL {
      NoHeader(m0, ps, offset, offset + length, forHeader, forCopy);
      return;
    }
    OtherChainsKeep(m0, m1, {}, nb, ps);
    var tmp; ghost var rs;
    tmp, rs := pool.Copy(nb, offset, length, forCopy, ps);
    ghost var m2 := pool.m;
    ghost var i: nat :| Holds(m1, ps, i, offset) && CopyEnds(m1, m2, ps, tmp, rs, i, offset, offset + length, forCopy);
    OneElem(head);
    if tmp == NULL {
      NoCopy(m0, m1, m2, nb, ps, i, offset, offset + length, rs, forHeader, forCopy);
      pool.FreeChain(head, [head]);
      HeaderGone(m0, m1, m2, pool.m, head);
      GaveOutKeeps(m0, m2, pool.m, ps, offset, |rs|, forHeader, forCopy);
      made := |rs|;
      head := NULL;
      return;
    }
    WithCopy(m0, m1, m2, nb, ps, i, offset, offset + length, tmp, rs, forHeader, forCopy);
    OtherChainsKeep(m1, m2, {}, head, [head]);
    FrameAt(m1, m2, {}, head);
    var joined := pool.Concat(head, tmp, [head], rs);
    qs := [head] + rs;
    OneMore(head, rs);
    FrameTrans(m0, m2, pool.m, {}, Elems([head]), {});
    FragmentShares(m0, m1, m2, pool.m, nb, ps, head, rs, i);
  }

  lemma NoHeader(m: Mem, ps: seq<Ptr>, at: nat, end: nat, header: Supply, copy: Supply)
    requires WF(m) && !(header(0) && header(1))
    ensures !Makes(m, ps, at, end, header, copy) && GaveOut(m, m, ps, at, 0, header, copy)
  {
    hide WF, Safe, Stranded, From, Need, Served;
    SafeIff(m);
  }

  lemma NoCopy(m0: Mem, m1: Mem, m2: Mem, nb: Ptr, ps: seq<Ptr>, i: nat, at: nat, end: nat, rs: seq<Ptr>, header: Supply, copy: Supply)
    requires List(m0.bufs, nb, ps) && Frame(m0, m1, {}) && Holds(m1, ps, i, at) && header(0) && header(1)
    requires CopyEnds(m1, m2, ps, NULL, rs, i, at, end, copy)
    ensures !Makes(m0, ps, at, end, header, copy) && GaveOut(m0, m2, ps, at, |rs|, header, copy)
    ensures Safe(m2) && m2.bufs == m1.bufs && Frame(m1, m2, {})
  {
    hide WF, Safe, Stranded, Frame, Bytes, Seg, Reach, Abandoned, Passed, From, Served, Copied, Aliased;
    SameNeed(m0, m1, nb, ps, i, at, end);
    AbandonedUse(m0, m1, m2, nb, ps, i, |rs|);
  }

  lemma WithCopy(m0: Mem, m1: Mem, m2: Mem, nb: Ptr, ps: seq<Ptr>, i: nat, at: nat, end: nat, r: Ptr, rs: seq<Ptr>,
                 header: Supply, copy: Supply)
    requires List(m0.bufs, nb, ps) && Frame(m0, m1, {}) && Holds(m1, ps, i, at) && header(0) && header(1)
    requires CopyEnds(m1, m2, ps, r, rs, i, at, end, copy) && r != NULL
    ensures Makes(m0, ps, at, end, header, copy) && From(m0, ps, at) == i && Aliased(m1, m2, ps, rs, i) && Chain(m2, r, rs)
    ensures WF(m2) && Frame(m1, m2, {}) && Frame(m0, m2, {}) && m2.bufs.Keys == m1.bufs.Keys + Elems(rs) && Elems(rs) !! m1.bufs.Keys
    ensures rs != [] && at <= end <= |Bytes(m1, ps)| && Bytes(m2, rs) == Bytes(m1, ps)[at..end]
  {
    hide WF, Safe, Stranded, Frame, Bytes, Seg, Elems, Reach, Abandoned, Passed, From, Served, Copied, Aliased;
    SameNeed(m0, m1, nb, ps, i, at, end);
    CopyIs(m1, m2, ps, r, rs, at, end);
    FrameTrans(m0, m1, m2, {}, {}, {});
  }

  /** A chain that is as it was needs as much for a copy as it did. */
  lemma SameNeed(m0: Mem, m1: Mem, nb: Ptr, ps: seq<Ptr>, i: nat, at: nat, end: nat)
    requires List(m0.bufs, nb, ps) && Frame(m0, m1, {}) && Holds(m1, ps, i, at)
    ensures From(m0, ps, at) == i && Need(m0, ps, at, end) == Reach(m1, ps, i, end)
  {
    hide Frame, Bytes, Seg, Reach;
    forall k: nat | k <= |ps| ensures Bytes(m1, ps[..k]) == Bytes(m0, ps[..k]) {
      SamePrefix(m0, m1, nb, ps, k);
    }
    NodeHolds(m0, ps, 0, i, at);
    SameReach(m0, m1, ps, i, end);
  }

  lemma SamePrefix(m0: Mem, m1: Mem, nb: Ptr, ps: seq<Ptr>, k: nat)
    requires List(m0.bufs, nb, ps) && Frame(m0, m1, {}) && k <= |ps|
    ensures Bytes(m1, ps[..k]) == Bytes(m0, ps[..k])
  {
    hide Frame, Bytes;
    SegSplit(m0.bufs, nb, ps, NULL, k);
    FrameBytes(m0, m1, {}, nb, ps[..k], if k < |ps| then ps[k] else NULL);
  }

  lemma {:induction false} SameReach(m0: Mem, m1: Mem, ps: seq<Ptr>, i: nat, end: nat)
    requires forall k: nat :: k <= |ps| ==> Bytes(m1, ps[..k]) == Bytes(m0, ps[..k])
    ensures Reach(m1, ps, i, end) == Reach(m0, ps, i, end)
    decreases |ps| - i
  {
    hide Bytes;
    if i + 1 < |ps| && end > |Bytes(m0, ps[..i + 1])| {
      SameReach(m0, m1, ps, i + 1, end);
    }
  }

  /** The buffers left with a counter too high, told from before the header was made. */
  lemma AbandonedUse(m0: Mem, m1: Mem, m2: Mem, nb: Ptr, ps: seq<Ptr>, i: nat, n: nat)
    requires List(m0.bufs, nb, ps) && Frame(m0, m1, {}) && Abandoned(m1, m2, ps, i, n)
    ensures Safe(m2) && m2.bufs == m1.bufs && Frame(m1, m2, {}) && i + n <= |ps|
    ensures forall d :: Stranded(m2, d) <==> Passed(m0, ps, i, n, d)
  {
    hide Safe, Stranded, Seg, Window, Buffer;
    SegIn(m0.bufs, nb, ps, NULL);
    forall j: nat, d | j < |ps| ensures OnBuffer(m1, ps[j], d) <==> OnBuffer(m0, ps[j], d) {
      assert ps[j] in ps;
    }
  }

  /** With the header freed the netbufs are those from before. */
  lemma HeaderGone(m0: Mem, m1: Mem, m2: Mem, m: Mem, head: Ptr)
    requires Frame(m0, m1, {}) && head !in m0.bufs && m1.bufs.Keys == m0.bufs.Keys + {head}
    requires m2.bufs == m1.bufs && Frame(m1, m2, {}) && m.bufs == m2.bufs - {head} && Frame(m2, m, {head})
    ensures m.bufs == m0.bufs && Frame(m0, m, {})
  {
    hide Window, Buffer;
    FrameTrans(m0, m1, m2, {}, {}, {});
    FrameTrans(m0, m2, m, {}, {head}, {});
  }

  /** The new fragment's netbufs after the header are on the buffers of the original's, in order. */
  lemma FragmentShares(m0: Mem, m1: Mem, m2: Mem, m: Mem, nb: Ptr, ps: seq<Ptr>, head: Ptr, rs: seq<Ptr>, i: nat)
    requires List(m0.bufs, nb, ps) && Frame(m0, m1, {}) && Aliased(m1, m2, ps, rs, i) && Relinked(m2, m)
    requires head in m1.bufs && head in m2.bufs && m2.bufs[head] == m1.bufs[head] && m1.bufs[head].data !in m0.datas
    requires m1.datas.Keys == m0.datas.Keys + {m1.bufs[head].data}
    ensures SharesFrom(m0, ps, i, m, [head] + rs) && m.datas.Keys == m0.datas.Keys + {m.bufs[head].data}
  {
    hide Seg, Window, Buffer, Relinked;
    SegIn(m0.bufs, nb, ps, NULL);
    RelinkedDatas(m2, m);
    var qs := [head] + rs;
    forall k: nat | 1 <= k < |qs| ensures SameBuffer(m0, ps[i + k - 1], m, qs[k]) {
      assert qs[k] == rs[k - 1] && ps[i + (k - 1)] in ps;
      assert SameBuffer(m1, ps[i + (k - 1)], m2, rs[k - 1]);
      RelinkedIn(m2, m, rs[k - 1]);
    }
    RelinkedIn(m2, m, head);
  }

  lemma RelinkedDatas(m: Mem, m': Mem)
    requires Relinked(m, m')
    ensures m'.datas == m.datas
  {}

  lemma RelinkedIn(m: Mem, m': Mem, p: Ptr)
    requires Relinked(m, m') && p in m.bufs
    ensures p in m'.bufs && m'.bufs[p].data == m.bufs[p].data && m'.bufs[p].off == m.bufs[p].off && Buffer(m', p) == Buffer(m, p)
  {}

  lemma OneElem(p: Ptr)
    ensures Elems([p]) == {p}
  {}

  lemma OneMore(p: Ptr, ps: seq<Ptr>)
    ensures Elems([p] + ps) == {p} + Elems(ps)
  {}

  lemma CopyIs(m0: Mem, m: Mem, ps: seq<Ptr>, r: Ptr, rs: seq<Ptr>, lo: nat, hi: nat)
    requires Copied(m0, m, ps, r, rs, lo, hi)
    ensures WF(m) && Frame(m0, m, {}) && m.bufs.Keys == m0.bufs.Keys + Elems(rs) && Elems(rs) !! m0.bufs.Keys
    ensures rs != [] && r != NULL && lo <= hi <= |Bytes(m0, ps)| && Bytes(m, rs) == Bytes(m0, ps)[lo..hi]
  {
    hide WF, Frame, Bytes;
  }

  /** The texts of the fragments: a header and a piece each. */
  ghost function Texts(headers: nat -> seq<byte>, first: seq<byte>, pieces: seq<seq<byte>>): seq<seq<byte>> {
    seq(|pieces|, i requires 0 <= i < |pieces| => (if i == 0 then first else headers(i)) + pieces[i])
  }

  /** Where fragmenting in pieces of `n` bytes from `at` on stops: at the first piece not served, or at the end. */
  ghost function Stop(m: Mem, ps: seq<Ptr>, at: nat, n: nat, forHeaders: nat -> Supply, forCopies: nat -> Supply): nat
    requires 0 < n
    decreases |Bytes(m, ps)| - at
  {
    var end := PieceEnd(|Bytes(m, ps)|, at, n);
    if at >= |Bytes(m, ps)| || !Makes(m, ps, at, end, forHeaders(at), forCopies(at)) then at
    else Stop(m, ps, end, n, forHeaders, forCopies)
  }

  function PieceEnd(total: nat, at: nat, n: nat): nat {
    if at + n >= total then total else at + n
  }

  /**
    The fragmenting loop of fnet_ip_output: pieces of `n` bytes, each but the first in a new chain with a
    header of its own, and the datagram trimmed to the first piece.  When the pool refuses an allocation, all
    the fragments and the datagram are freed.
   */
  method MakeFragments(pool: Netbufs, nb: Ptr, hlen: nat, n: nat, headers: nat -> seq<byte>, forHeaders: nat -> Supply,
                       forCopies: nat -> Supply, ghost ps: seq<Ptr>)
      returns (heads: seq<Ptr>, ghost qss: seq<seq<Ptr>>, ghost made: nat)
    requires WF(pool.m) && Chain(pool.m, nb, ps) && 0 < n && hlen + n < |Bytes(pool.m, ps)|
    modifies pool
    ensures Frame(old(pool.m), pool.m, Elems(ps))
    ensures heads != [] <==> Stop(old(pool.m), ps, hlen + n, n, forHeaders, forCopies) == |Bytes(old(pool.m), ps)|
    ensures heads != [] ==>
              var b := Bytes(old(pool.m), ps);
              && WF(pool.m) && Parcels(pool.m, heads, qss, Texts(headers, b[..hlen], Cut(b[hlen..], n)))
              && Nodes(qss) !! old(pool.m).bufs.Keys - Elems(ps)
              && pool.m.bufs.Keys == old(pool.m).bufs.Keys - Elems(ps) + Nodes(qss)
              && forall i :: 1 <= i < |qss| ==> Shares(old(pool.m), ps, pool.m, qss[i])
    ensures heads == [] ==>
              var stop := Stop(old(pool.m), ps, hlen + n, n, forHeaders, forCopies);
              && pool.m.bufs == old(pool.m).bufs - Elems(ps)
              && GaveOut(old(pool.m), pool.m, ps, stop, made, forHeaders(stop), forCopies(stop))
              && (WF(pool.m) <==> !Leaky(forHeaders(stop), forCopies(stop)))
  {
    hide WF, Safe, Stranded, Frame, Bytes, Seg, Elems, Nodes, Parcel, Parcels, Cut, Texts, Stop, Makes, GaveOut, SharesFrom, From, Underway, Shares, Leaky;
    ghost var m0, b := pool.m, Bytes(pool.m, ps);
    ListNonEmpty(m0, nb, ps);
    ElemsWithin(m0, nb, ps);
    var total := pool.m.bufs[nb].total;
    var offset := hlen + n;
    heads, qss, made := [], [], 0;
    ghost var texts, pieces: seq<seq<byte>> := [], [b[hlen..hlen + n]];
    Beginning(headers, b, hlen, n);
    UnderwayStart(m0, nb, ps);
    while offset < total
      invariant hlen + n <= offset <= total && |heads| + 1 == |pieces| && |qss| == |heads|
      invariant Underway(m0, pool.m, nb, ps, heads, qss, texts)
      invariant Texts(headers, b[..hlen], pieces) == [b[..hlen + n]] + texts
      invariant pieces + (if offset < total then Cut(b[offset..], n) else []) == Cut(b[hlen..], n)
      invariant Stop(m0, ps, offset, n, forHeaders, forCopies) == Stop(m0, ps, hlen + n, n, forHeaders, forCopies)
      decreases total - offset
    {
      var length := if offset + n >= total then total - offset else n;
      StopStep(m0, ps, offset, n, forHeaders, forCopies);
      ghost var m1 := pool.m;
      UnderwayUse(m0, m1, nb, ps, heads, qss, texts);
      SameMakes(m0, m1, nb, ps, offset, offset + length, forHeaders(offset), forCopies(offset));
      var head; ghost var qs;
      head, qs, made := MakeFragment(pool, nb, headers(|heads| + 1), offset, length, forHeaders(offset), forCopies(offset), ps);
      if head == NULL {
        SameGaveOut(m0, m1, pool.m, nb, ps, offset, made, forHeaders(offset), forCopies(offset));
        ghost var m2 := pool.m;
        UnderwayLost(m0, m1, m2, nb, ps, heads, qss, texts);
        GaveOutUse(m0, m2, ps, offset, made, forHeaders(offset), forCopies(offset));
        Discard(pool, nb, heads, m0, ps, qss, texts);
        GaveOutKeeps(m0, m2, pool.m, ps, offset, made, forHeaders(offset), forCopies(offset));
        LeakyIff(m0, pool.m, nb, ps, offset, made, forHeaders(offset), forCopies(offset));
        heads, qss := [], [];
        return;
      }
      ghost var piece := b[offset..offset + length];
      UnderwayNext(m0, m1, pool.m, nb, ps, heads, qss, texts, head, qs, headers(|heads| + 1) + piece, From(m1, ps, offset));
      CutStep(b, n, offset, offset + length);
      PiecesMore(pieces, piece, if offset + length < total then Cut(b[offset + length..], n) else []);
      TextsMore(headers, b[..hlen], pieces, piece);
      heads, qss, texts, pieces := heads + [head], qss + [qs], texts + [headers(|heads| + 1) + piece], pieces + [piece];
      offset := offset + length;
    }
    StopStep(m0, ps, offset, n, forHeaders, forCopies);
    ghost var m1 := pool.m;
    UnderwayUse(m0, m1, nb, ps, heads, qss, texts);
    assert pieces + [] == pieces;
    var first; ghost var rs;
    first, rs := pool.Trim(nb, hlen + n - total, ps);
    ListNonEmpty(pool.m, first, rs);
    UnderwayDone(m0, m1, pool.m, nb, ps, heads, qss, texts, first, rs, b[..hlen + n]);
    heads, qss := [first] + heads, [rs] + qss;
  }

  /** Fragments being made of the datagram `ps`: it is as it was, and `qss` are the fragments after the first. */
  ghost predicate Underway(m0: Mem, m: Mem, nb: Ptr, ps: seq<Ptr>, heads: seq<Ptr>, qss: seq<seq<Ptr>>, texts: seq<seq<byte>>) {
    && WF(m) && Chain(m, nb, ps) && Bytes(m, ps) == Bytes(m0, ps) && Frame(m0, m, {}) && Parcels(m, heads, qss, texts)
    && Nodes(qss) !! m0.bufs.Keys && m.bufs.Keys == m0.bufs.Keys + Nodes(qss)
    && m0.datas.Keys <= m.datas.Keys && forall i :: 0 <= i < |qss| ==> Shares(m0, ps, m, qss[i])
  }

  lemma UnderwayStart(m: Mem, nb: Ptr, ps: seq<Ptr>)
    requires WF(m) && Chain(m, nb, ps)
    ensures Underway(m, m, nb, ps, [], [], [])
  {
    hide WF, Chain, Frame, Bytes;
    FrameSelf(m);
    NoParcels(m);
  }

  lemma UnderwayUse(m0: Mem, m: Mem, nb: Ptr, ps: seq<Ptr>, heads: seq<Ptr>, qss: seq<seq<Ptr>>, texts: seq<seq<byte>>)
    requires Underway(m0, m, nb, ps, heads, qss, texts)
    ensures WF(m) && Chain(m, nb, ps) && Bytes(m, ps) == Bytes(m0, ps) && Frame(m0, m, {})
  {
    hide WF, Chain, Frame, Bytes, Parcels, Shares, Nodes;
  }

  /** A fragment that could not be made changes nothing for the others. */
  lemma UnderwayLost(m0: Mem, m1: Mem, m: Mem, nb: Ptr, ps: seq<Ptr>, heads: seq<Ptr>, qss: seq<seq<Ptr>>, texts: seq<seq<byte>>)
    requires Underway(m0, m1, nb, ps, heads, qss, texts) && Frame(m1, m, {}) && m.bufs == m1.bufs
    ensures List(m.bufs, nb, ps) && Parcels(m, heads, qss, texts) && Frame(m0, m, {})
    ensures m.bufs.Keys == m0.bufs.Keys + Nodes(qss) && Nodes(qss) !! m0.bufs.Keys
  {
    hide WF, Frame, Bytes, Parcels, Shares, Nodes, Seg;
    FrameTrans(m0, m1, m, {}, {}, {});
    ParcelsFrame(m1, m, {}, heads, qss, texts);
  }

  lemma UnderwayNext(m0: Mem, m1: Mem, m: Mem, nb: Ptr, ps: seq<Ptr>, heads: seq<Ptr>, qss: seq<seq<Ptr>>, texts: seq<seq<byte>>,
                     head: Ptr, qs: seq<Ptr>, text: seq<byte>, i: nat)
    requires Underway(m0, m1, nb, ps, heads, qss, texts) && List(m0.bufs, nb, ps)
    requires WF(m) && Frame(m1, m, {}) && Parcel(m, head, qs, text) && SharesFrom(m1, ps, i, m, qs)
    requires m.bufs.Keys == m1.bufs.Keys + Elems(qs) && Elems(qs) !! m1.bufs.Keys && m1.datas.Keys <= m.datas.Keys
    ensures Underway(m0, m, nb, ps, heads + [head], qss + [qs], texts + [text])
  {
    hide WF, Frame, Bytes, Seg, Elems, Nodes, Parcel, Parcels, SharesFrom, Shares;
    OtherChainsKeep(m1, m, {}, nb, ps);
    FrameTrans(m0, m1, m, {}, {}, {});
    ParcelsFrame(m1, m, {}, heads, qss, texts);
    SharesKeep(m0, ps, m1, m, {}, qss);
    SameShares(m0, m1, m, nb, ps, i, qs);
    ParcelsAdd(m, heads, qss, texts, head, qs, text);
  }

  /** The datagram trimmed to its first piece is the first of the fragments. */
  lemma UnderwayDone(m0: Mem, m1: Mem, m: Mem, nb: Ptr, ps: seq<Ptr>, heads: seq<Ptr>, qss: seq<seq<Ptr>>, texts: seq<seq<byte>>,
                     first: Ptr, rs: seq<Ptr>, text: seq<byte>)
    requires Underway(m0, m1, nb, ps, heads, qss, texts) && Elems(ps) <= m0.bufs.Keys
    requires Frame(m1, m, Elems(ps)) && Elems(rs) <= Elems(ps) && m.bufs.Keys == m1.bufs.Keys - (Elems(ps) - Elems(rs))
    requires Chain(m, first, rs) && first != NULL && rs != [] && Bytes(m, rs) == text
    ensures Frame(m0, m, Elems(ps)) && Parcels(m, [first] + heads, [rs] + qss, [text] + texts)
    ensures Nodes([rs] + qss) !! m0.bufs.Keys - Elems(ps) && m.bufs.Keys == m0.bufs.Keys - Elems(ps) + Nodes([rs] + qss)
    ensures forall i :: 1 <= i < |[rs] + qss| ==> Shares(m0, ps, m, ([rs] + qss)[i])
  {
    hide WF, Frame, Bytes, Seg, Elems, Nodes, Parcel, Parcels, Shares;
    ParcelsFrame(m1, m, Elems(ps), heads, qss, texts);
    SharesKeep(m0, ps, m1, m, Elems(ps), qss);
    FirstParcel(m, first, rs, text);
    ParcelsFirst(m, heads, qss, texts, first, rs, text);
    FrameTrans(m0, m1, m, {}, Elems(ps), Elems(ps));
  }

  /** Frees a datagram's chain and then those of the fragments made so far. */
  method Discard(pool: Netbufs, nb: Ptr, heads: seq<Ptr>, ghost m0: Mem, ghost ps: seq<Ptr>, ghost qss: seq<seq<Ptr>>,
                 ghost texts: seq<seq<byte>>)
    requires Safe(pool.m) && List(pool.m.bufs, nb, ps) && Parcels(pool.m, heads, qss, texts) && Frame(m0, pool.m, {})
    requires pool.m.bufs.Keys == m0.bufs.Keys + Nodes(qss) && Nodes(qss) !! m0.bufs.Keys && Elems(ps) <= m0.bufs.Keys
    modifies pool
    ensures Safe(pool.m) && pool.m.bufs == m0.bufs - Elems(ps) && Frame(m0, pool.m, Elems(ps))
    ensures forall d :: Stranded(pool.m, d) <==> Stranded(old(pool.m), d)
  {
    hide WF, Safe, Stranded, Frame, Bytes, Seg, Elems, Nodes, Parcel, Parcels, Apart;
    ghost var m1 := pool.m;
    pool.FreeChain(nb, ps);
    ghost var m2 := pool.m;
    ParcelsFrame(m1, m2, Elems(ps), heads, qss, texts);
    FrameTrans(m0, m1, m2, {}, Elems(ps), Elems(ps));
    ParcelsCount(m2, heads, qss, texts);
    assert heads[0..] == heads && qss[0..] == qss && texts[0..] == texts;
    var k := 0;
    while k < |heads|
      invariant k <= |heads| == |qss| == |texts| && Safe(pool.m) && Parcels(pool.m, heads[k..], qss[k..], texts[k..])
      invariant Frame(m0, pool.m, Elems(ps)) && pool.m.bufs.Keys == m0.bufs.Keys - Elems(ps) + Nodes(qss[k..])
      invariant Nodes(qss[k..]) !! m0.bufs.Keys && forall d :: Stranded(pool.m, d) <==> Stranded(m1, d)
    {
      ghost var m3 := pool.m;
      ParcelsAt(m3, heads[k..], qss[k..], texts[k..], 0);
      ParcelUse(m3, heads[k], qss[k], texts[k]);
      RestNodes(m3, heads, qss, texts, k);
      pool.FreeChain(heads[k], qss[k]);
      ParcelsRest(m3, pool.m, heads, qss, texts, k, Elems(qss[k]));
      FrameTrans(m0, m3, pool.m, Elems(ps), Elems(qss[k]), Elems(ps));
      k := k + 1;
    }
    NoNodes();
    assert qss[k..] == [];
    SameRest(m0, pool.m, Elems(ps));
  }

  lemma SameRest(m0: Mem, m: Mem, s: set<Ptr>)
    requires Frame(m0, m, s) && m.bufs.Keys == m0.bufs.Keys - s
    ensures m.bufs == m0.bufs - s
  {
    hide Window, Buffer;
  }

  /** The first of the chains from the `k`-th on, and the others. */
  lemma RestNodes(m: Mem, heads: seq<Ptr>, qss: seq<seq<Ptr>>, texts: seq<seq<byte>>, k: nat)
    requires k < |heads| == |qss| == |texts| && Parcels(m, heads[k..], qss[k..], texts[k..])
    ensures Nodes(qss[k..]) == Elems(qss[k]) + Nodes(qss[k + 1..]) && Elems(qss[k]) !! Nodes(qss[k + 1..])
  {
    hide Parcel, Elems;
    var rest := qss[k..];
    assert rest[0] == qss[k] && rest[1..] == qss[k + 1..];
    forall p | p in Nodes(rest) ensures p in Elems(rest[0]) + Nodes(rest[1..]) {
      var i :| 0 <= i < |rest| && p in Elems(rest[i]);
      assert i > 0 ==> p in Elems(rest[1..][i - 1]);
    }
    forall p | p in Nodes(rest[1..]) ensures p in Nodes(rest) && p !in Elems(rest[0]) {
      var i :| 0 <= i < |rest[1..]| && p in Elems(rest[1..][i]);
      assert p in Elems(rest[i + 1]);
    }
    assert Elems(rest[0]) <= Nodes(rest);
  }

  lemma GaveOutUse(m0: Mem, m: Mem, ps: seq<Ptr>, at: nat, made: nat, header: Supply, copy: Supply)
    requires GaveOut(m0, m, ps, at, made, header, copy)
    ensures Safe(m)
  {}

  /** Counters are wrong afterwards exactly if the copy had room for a second netbuf. */
  ghost predicate Leaky(header: Supply, copy: Supply) {
    header(0) && header(1) && copy(0) && copy(1)
  }

  lemma LeakyIff(m0: Mem, m: Mem, nb: Ptr, ps: seq<Ptr>, at: nat, made: nat, header: Supply, copy: Supply)
    requires GaveOut(m0, m, ps, at, made, header, copy) && List(m0.bufs, nb, ps)
    ensures WF(m) <==> !Leaky(header, copy)
  {
    hide WF, Safe, Stranded, From, Seg;
    SafeIff(m);
    SegIn(m0.bufs, nb, ps, NULL);
    if made > 1 {
      var j := From(m0, ps, at) + 1;
      assert ps[j] in ps;
      assert OnBuffer(m0, ps[j], m0.bufs[ps[j]].data);
      assert Stranded(m, m0.bufs[ps[j]].data);
    }
  }

  lemma GaveOutKeeps(m0: Mem, m1: Mem, m: Mem, ps: seq<Ptr>, at: nat, made: nat, header: Supply, copy: Supply)
    requires GaveOut(m0, m1, ps, at, made, header, copy) && Safe(m) && forall d :: Stranded(m, d) <==> Stranded(m1, d)
    ensures GaveOut(m0, m, ps, at, made, header, copy)
  {
    hide Safe, Stranded, Passed, From, Served;
  }

  /** What the pool must serve is told from the datagram as it was. */
  lemma SameMakes(m0: Mem, m1: Mem, nb: Ptr, ps: seq<Ptr>, at: nat, end: nat, header: Supply, copy: Supply)
    requires List(m0.bufs, nb, ps) && Frame(m0, m1, {})
    ensures Makes(m1, ps, at, end, header, copy) <==> Makes(m0, ps, at, end, header, copy)
    ensures From(m1, ps, at) == From(m0, ps, at)
  {
    hide Frame, Bytes, Seg, Reach, Served, NodeAt;
    forall k: nat | k <= |ps| ensures Bytes(m1, ps[..k]) == Bytes(m0, ps[..k]) {
      SamePrefix(m0, m1, nb, ps, k);
    }
    SameNodeAt(m0, m1, ps, 0, at);
    SameReach(m0, m1, ps, From(m0, ps, at), end);
  }

  lemma {:induction false} SameNodeAt(m0: Mem, m1: Mem, ps: seq<Ptr>, i: nat, k: nat)
    requires forall j: nat :: j <= |ps| ==> Bytes(m1, ps[..j]) == Bytes(m0, ps[..j])
    ensures NodeAt(m1, ps, i, k) == NodeAt(m0, ps, i, k)
    decreases |ps| - i
  {
    hide Bytes;
    if i + 1 < |ps| && k >= |Bytes(m0, ps[..i + 1])| {
      SameNodeAt(m0, m1, ps, i + 1, k);
    }
  }

  lemma SameGaveOut(m0: Mem, m1: Mem, m: Mem, nb: Ptr, ps: seq<Ptr>, at: nat, made: nat, header: Supply, copy: Supply)
    requires List(m0.bufs, nb, ps) && Frame(m0, m1, {}) && GaveOut(m1, m, ps, at, made, header, copy)
    ensures GaveOut(m0, m, ps, at, made, header, copy)
  {
    hide Safe, Stranded, From, Served, Seg, Window, Buffer, Makes;
    SameMakes(m0, m1, nb, ps, at, at, header, copy);
    SegIn(m0.bufs, nb, ps, NULL);
    forall j: nat, d | j < |ps| ensures OnBuffer(m1, ps[j], d) <==> OnBuffer(m0, ps[j], d) {
      assert ps[j] in ps;
    }
  }

  lemma SameShares(m0: Mem, m1: Mem, m: Mem, nb: Ptr, ps: seq<Ptr>, i: nat, qs: seq<Ptr>)
    requires List(m0.bufs, nb, ps) && Frame(m0, m1, {}) && SharesFrom(m1, ps, i, m, qs) && m0.datas.Keys <= m1.datas.Keys
    ensures Shares(m0, ps, m, qs)
  {
    hide Seg, Window, Buffer;
    SegIn(m0.bufs, nb, ps, NULL);
    forall k: nat | 1 <= k < |qs| ensures SameBuffer(m0, ps[i + k - 1], m, qs[k]) {
      assert ps[i + k - 1] in ps;
      assert SameBuffer(m1, ps[i + k - 1], m, qs[k]);
    }
    assert SharesFrom(m0, ps, i, m, qs);
  }

  lemma SharesKeep(m0: Mem, ps: seq<Ptr>, m1: Mem, m: Mem, s: set<Ptr>, qss: seq<seq<Ptr>>)
    requires forall i :: 0 <= i < |qss| ==> Shares(m0, ps, m1, qss[i])
    requires Frame(m1, m, s) && Nodes(qss) !! s
    ensures forall i :: 0 <= i < |qss| ==> Shares(m0, ps, m, qss[i])
  {
    hide Frame, Nodes, Shares, Elems;
    forall i | 0 <= i < |qss| ensures Shares(m0, ps, m, qss[i]) {
      NodesHas(qss, i);
      ShareKeeps(m0, ps, m1, m, s, qss[i]);
    }
  }

  lemma ShareKeeps(m0: Mem, ps: seq<Ptr>, m1: Mem, m: Mem, s: set<Ptr>, qs: seq<Ptr>)
    requires Shares(m0, ps, m1, qs) && Frame(m1, m, s) && Elems(qs) !! s
    ensures Shares(m0, ps, m, qs)
  {
    hide Window, Buffer;
    var i: nat :| SharesFrom(m0, ps, i, m1, qs);
    forall k: nat | k < |qs| ensures qs[k] !in s {
      assert qs[k] in Elems(qs);
    }
    forall k: nat | 1 <= k < |qs| ensures SameBuffer(m0, ps[i + k - 1], m, qs[k]) {
      assert SameBuffer(m0, ps[i + k - 1], m1, qs[k]);
    }
    assert SharesFrom(m0, ps, i, m, qs);
  }

  lemma StopStep(m: Mem, ps: seq<Ptr>, at: nat, n: nat, forHeaders: nat -> Supply, forCopies: nat -> Supply)
    requires 0 < n && at <= |Bytes(m, ps)|
    ensures var end := PieceEnd(|Bytes(m, ps)|, at, n);
            if at == |Bytes(m, ps)| || !Makes(m, ps, at, end, forHeaders(at), forCopies(at))
            then Stop(m, ps, at, n, forHeaders, forCopies) == at
            else Stop(m, ps, at, n, forHeaders, forCopies) == Stop(m, ps, end, n, forHeaders, forCopies)
  {
    hide Makes, Bytes;
  }

  lemma NoParcels(m: Mem)
    ensures Parcels(m, [], [], []) && Nodes([]) == {}
  {}

  lemma Beginning(headers: nat -> seq<byte>, b: seq<byte>, hlen: nat, n: nat)
    requires 0 < n && hlen + n < |b|
    ensures Texts(headers, b[..hlen], [b[hlen..hlen + n]]) == [b[..hlen + n]]
    ensures [b[hlen..hlen + n]] + Cut(b[hlen + n..], n) == Cut(b[hlen..], n)
  {
    CutStep(b, n, hlen, hlen + n);
    assert b[..hlen] + b[hlen..hlen + n] == b[..hlen + n];
  }

  lemma TextsMore(headers: nat -> seq<byte>, first: seq<byte>, pieces: seq<seq<byte>>, piece: seq<byte>)
    requires pieces != []
    ensures Texts(headers, first, pieces + [piece]) == Texts(headers, first, pieces) + [headers(|pieces|) + piece]
  {}

  lemma FirstParcel(m: Mem, head: Ptr, qs: seq<Ptr>, text: seq<byte>)
    requires Chain(m, head, qs) && qs != [] && head != NULL && Bytes(m, qs) == text
    ensures Parcel(m, head, qs, text)
  {
    hide Chain, Bytes;
  }

  lemma ParcelsFirst(m: Mem, heads: seq<Ptr>, qss: seq<seq<Ptr>>, texts: seq<seq<byte>>, head: Ptr, qs: seq<Ptr>, text: seq<byte>)
    requires Parcels(m, heads, qss, texts) && Parcel(m, head, qs, text) && Nodes(qss) !! Elems(qs)
    ensures Parcels(m, [head] + heads, [qs] + qss, [text] + texts) && Nodes([qs] + qss) == Elems(qs) + Nodes(qss)
  {
    hide Parcel, Elems;
    var more := [qs] + qss;
    forall p | p in Nodes(more) ensures p in Elems(qs) + Nodes(qss) {
      var i :| 0 <= i < |more| && p in Elems(more[i]);
      assert i > 0 ==> p in Elems(qss[i - 1]);
    }
    forall p | p in Elems(qs) + Nodes(qss) ensures p in Nodes(more) {
      if p in Elems(qs) {
        assert p in Elems(more[0]);
      } else {
        var i :| 0 <= i < |qss| && p in Elems(qss[i]);
        assert p in Elems(more[i + 1]);
      }
    }
    forall i | 0 <= i < |qss| ensures Elems(qss[i]) <= Nodes(qss) {
      NodesHas(qss, i);
    }
  }

  // ----- joining

  /** The texts without their first `hlen` bytes, those of the first `k`. */
  ghost function Stripped(texts: seq<seq<byte>>, hlen: nat, k: nat): seq<seq<byte>> {
    seq(|texts|, i requires 0 <= i < |texts| => if i < k && hlen <= |texts[i]| then texts[i][hlen..] else texts[i])
  }

  /** The bytes `front` lie in a netbuf's buffer just before its window. */
  ghost predicate Fronted(m: Mem, p: Ptr, front: seq<byte>) {
    && p in m.bufs && |front| <= m.bufs[p].off <= |Buffer(m, p)|
    && Buffer(m, p)[m.bufs[p].off - |front|..m.bufs[p].off] == front
  }

  lemma FrontedFrame(m: Mem, m': Mem, s: set<Ptr>, p: Ptr, front: seq<byte>)
    requires Fronted(m, p, front) && Frame(m, m', s) && p !in s
    ensures Fronted(m', p, front)
  {
    hide Window, Buffer;
  }

  lemma FrontedRelinked(m: Mem, m': Mem, p: Ptr, front: seq<byte>)
    requires Fronted(m, p, front) && Relinked(m, m')
    ensures Fronted(m', p, front)
  {
    hide Window, Buffer, Relinked;
    RelinkedIn(m, m', p);
  }

  /** A header trimmed off a netbuf that has all the bytes stays in front of its window. */
  lemma FrontMade(m: Mem, p: Ptr, qs: seq<Ptr>, text: seq<byte>, hlen: nat)
    requires WF(m) && Parcel(m, p, qs, text) && hlen < |text| <= |Window(m, p)|
    ensures p in m.bufs && hlen < m.bufs[p].length && hlen <= m.bufs[p].total && qs[0] == p
    ensures Fronted(Edit(m, p, Shrunk(m.bufs[p], hlen)), p, text[..hlen])
  {
    hide WF, Bytes, Window;
    ListHead(m.bufs, p, qs);
    WindowLen(m, p);
    WindowSlice(m, p);
    BytesHead(m, qs);
    assert Window(m, p) == text;
    SliceOfSlice(Buffer(m, p), m.bufs[p].off, m.bufs[p].length, 0, hlen);
    assert text[0..hlen] == text[..hlen];
  }

  /**
    The arrival of a fragment: its bytes gathered in one netbuf and its header trimmed, which leaves the header
    in the buffer in front.  A fragment for which memory runs out is freed.
   */
  method Arrive(pool: Netbufs, nb: Ptr, hlen: nat, supply: Supply, ghost qs: seq<Ptr>, ghost text: seq<byte>)
      returns (head: Ptr, ghost rs: seq<Ptr>)
    requires WF(pool.m) && Parcel(pool.m, nb, qs, text) && 0 < hlen < |text|
    modifies pool
    ensures WF(pool.m) && Frame(old(pool.m), pool.m, Elems(qs))
    ensures head != NULL <==> |text| <= |Window(old(pool.m), nb)| || supply(0)
    ensures head != NULL ==>
              && head == nb && Parcel(pool.m, head, rs, text[hlen..]) && rs != [] && rs[0] == nb && Elems(rs) <= Elems(qs)
              && pool.m.bufs.Keys == old(pool.m).bufs.Keys - (Elems(qs) - Elems(rs)) && Fronted(pool.m, head, text[..hlen])
    ensures head == NULL ==> pool.m.bufs == old(pool.m).bufs - Elems(qs)
  {
    hide WF, Safe, Stranded, Frame, Bytes, Seg, Elems, Window, Fronted;
    ghost var m0 := pool.m;
    ListNonEmpty(m0, nb, qs);
    var total := pool.m.bufs[nb].total;
    head, rs := pool.Pullup(nb, total, supply, qs);
    if head == NULL {
      SafeIff(pool.m);
      pool.FreeChain(nb, qs);
      return;
    }
    ghost var m1, ms := pool.m, rs;
    ListNonEmpty(m1, head, ms);
    FrontMade(m1, head, ms, text, hlen);
    head, rs := pool.Trim(head, hlen, ms);
    ListNonEmpty(pool.m, head, rs);
    FrameWider(m1, pool.m, Elems(ms), Elems(qs));
    FrameTrans(m0, m1, pool.m, Elems(qs), Elems(qs), Elems(qs));
  }

  lemma ParcelsPut(m: Mem, m': Mem, heads: seq<Ptr>, qss: seq<seq<Ptr>>, texts: seq<seq<byte>>, k: nat, head: Ptr, qs: seq<Ptr>, text: seq<byte>)
    requires Parcels(m, heads, qss, texts) && k < |qss| && Frame(m, m', Elems(qss[k]))
    requires Parcel(m', head, qs, text) && Elems(qs) <= Elems(qss[k])
    ensures Parcels(m', heads[k := head], qss[k := qs], texts[k := text])
    ensures Nodes(qss[k := qs]) == Nodes(qss) - (Elems(qss[k]) - Elems(qs))
  {
    hide Frame, Parcel, Elems;
    var put := qss[k := qs];
    forall i | 0 <= i < |qss| ensures Parcel(m', heads[k := head][i], put[i], texts[k := text][i]) {
      if i != k {
        assert Elems(qss[i]) !! Elems(qss[k]);
        ParcelFrame(m, m', Elems(qss[k]), heads[i], qss[i], texts[i]);
      }
    }
    forall p | p in Nodes(qss) - (Elems(qss[k]) - Elems(qs)) ensures p in Nodes(put) {
      var i :| 0 <= i < |qss| && p in Elems(qss[i]);
      assert p in Elems(put[i]);
    }
    forall p | p in Nodes(put) ensures p in Nodes(qss) - (Elems(qss[k]) - Elems(qs)) {
      var i :| 0 <= i < |put| && p in Elems(put[i]);
      assert p in Elems(qss[i]);
    }
  }

  lemma StrippedStep(texts: seq<seq<byte>>, hlen: nat, k: nat)
    requires k < |texts| && hlen <= |texts[k]|
    ensures Stripped(texts, hlen, k)[k] == texts[k]
    ensures Stripped(texts, hlen, k)[k := texts[k][hlen..]] == Stripped(texts, hlen, k + 1)
  {}

  lemma ParcelsAt(m: Mem, heads: seq<Ptr>, qss: seq<seq<Ptr>>, texts: seq<seq<byte>>, k: nat)
    requires Parcels(m, heads, qss, texts) && k < |qss|
    ensures Parcel(m, heads[k], qss[k], texts[k])
  {}

  lemma ParcelsCount(m: Mem, heads: seq<Ptr>, qss: seq<seq<Ptr>>, texts: seq<seq<byte>>)
    requires Parcels(m, heads, qss, texts)
    ensures |heads| == |qss| == |texts|
  {}

  lemma FlatMore<T>(texts: seq<seq<T>>, k: nat)
    requires k < |texts|
    ensures Flat(texts[..k + 1]) == Flat(texts[..k]) + texts[k]
  {
    assert texts[..k + 1][..k] == texts[..k];
  }

  lemma {:induction false} FlatElems(qss: seq<seq<Ptr>>)
    ensures Elems(Flat(qss)) == Nodes(qss)
    decreases |qss|
  {
    hide Elems, Nodes;
    if qss == [] {
      NoNodes();
    } else {
      var k := |qss| - 1;
      FlatElems(qss[..k]);
      NodesMore(qss[..k], qss[k]);
      assert qss[..k] + [qss[k]] == qss;
      ElemsJoin(Flat(qss[..k]), qss[k]);
    }
  }

  lemma NoNodes()
    ensures Nodes([]) == {} && Elems([]) == {}
  {}

  lemma ElemsJoin(a: seq<Ptr>, b: seq<Ptr>)
    ensures Elems(a + b) == Elems(a) + Elems(b)
  {}

  /** A chain of a set apart is apart from those before it and those after it. */
  lemma NodesApart(qss: seq<seq<Ptr>>, k: nat)
    requires Apart(qss) && k < |qss|
    ensures Nodes(qss[..k]) !! Elems(qss[k]) && Nodes(qss[..k]) !! Nodes(qss[k..]) && Nodes(qss[k..]) == Elems(qss[k]) + Nodes(qss[k + 1..])
    ensures Nodes(qss[..k + 1]) == Nodes(qss[..k]) + Elems(qss[k])
  {
    hide Elems;
    forall p | p in Nodes(qss[k..]) ensures p in Elems(qss[k]) + Nodes(qss[k + 1..]) {
      var i :| 0 <= i < |qss[k..]| && p in Elems(qss[k..][i]);
      assert i > 0 ==> p in Elems(qss[k + 1..][i - 1]);
    }
    forall p | p in Elems(qss[k]) + Nodes(qss[k + 1..]) ensures p in Nodes(qss[k..]) {
      if p in Elems(qss[k]) {
        assert qss[k..][0] == qss[k];
      } else {
        var i :| 0 <= i < |qss[k + 1..]| && p in Elems(qss[k + 1..][i]);
        assert qss[k..][i + 1] == qss[k + 1..][i];
      }
    }
    NodesMore(qss[..k], qss[k]);
    assert qss[..k] + [qss[k]] == qss[..k + 1];
  }

  lemma ParcelsTail(m: Mem, heads: seq<Ptr>, qss: seq<seq<Ptr>>, texts: seq<seq<byte>>)
    requires Parcels(m, heads, qss, texts) && qss != []
    ensures Parcels(m, heads[1..], qss[1..], texts[1..])
  {
    hide Parcel, Elems;
    var hs, rest, ts := heads[1..], qss[1..], texts[1..];
    forall i | 0 <= i < |rest| ensures Parcel(m, hs[i], rest[i], ts[i]) {
      assert Parcel(m, heads[i + 1], qss[i + 1], texts[i + 1]);
    }
    forall i, j | 0 <= i < j < |rest| ensures Elems(rest[i]) !! Elems(rest[j]) {
      assert Elems(qss[i + 1]) !! Elems(qss[j + 1]);
    }
  }

  /** What a join has still to do: the chains from the `k`-th on. */
  lemma ParcelsRest(m: Mem, m': Mem, heads: seq<Ptr>, qss: seq<seq<Ptr>>, texts: seq<seq<byte>>, k: nat, s: set<Ptr>)
    requires k < |qss| == |heads| == |texts| && Parcels(m, heads[k..], qss[k..], texts[k..])
    requires Frame(m, m', s) && Nodes(qss[k + 1..]) !! s
    ensures Parcels(m', heads[k + 1..], qss[k + 1..], texts[k + 1..])
  {
    hide Frame, Parcel, Parcels, Nodes, Elems;
    ParcelsTail(m, heads[k..], qss[k..], texts[k..]);
    assert heads[k..][1..] == heads[k + 1..] && qss[k..][1..] == qss[k + 1..] && texts[k..][1..] == texts[k + 1..];
    ParcelsFrame(m, m', s, heads[k + 1..], qss[k + 1..], texts[k + 1..]);
  }

  /**
    The fragments of a datagram, in order, with memory for each: each gathered and without its header, then one
    hung on the other, and the first one's header put back in front, as fnet_ip_reassembly does when the last
    one completes the ring.
   */
  method JoinFragments(pool: Netbufs, heads: seq<Ptr>, hlen: nat, ghost qss: seq<seq<Ptr>>, ghost texts: seq<seq<byte>>)
      returns (nb: Ptr, ghost rs: seq<Ptr>)
    requires WF(pool.m) && Parcels(pool.m, heads, qss, texts) && heads != [] && 0 < hlen
    requires forall i :: 0 <= i < |texts| ==> hlen < |texts[i]|
    modifies pool
    ensures |texts| > 0 && hlen < |texts[0]|
    ensures WF(pool.m) && Chain(pool.m, nb, rs) && Bytes(pool.m, rs) == texts[0][..hlen] + Flat(Stripped(texts, hlen, |texts|))
    ensures Elems(rs) <= Nodes(qss) && Frame(old(pool.m), pool.m, Nodes(qss))
    ensures pool.m.bufs.Keys == old(pool.m).bufs.Keys - (Nodes(qss) - Elems(rs))
  {
    hide WF, Frame, Bytes, Seg, Elems, Nodes, Parcel, Parcels, Flat, Apart, Fronted, Relinked;
    ghost var m0 := pool.m;
    var chains := heads;
    ghost var lists := qss;
    FrameMore(m0, Nodes(qss));
    ParcelsCount(m0, heads, qss, texts);
    ghost var front := texts[0][..hlen];
    assert Stripped(texts, hlen, 0) == texts;
    var i := 0;
    while i < |chains|
      invariant i <= |chains| == |lists| == |texts| == |heads| && WF(pool.m)
      invariant Parcels(pool.m, chains, lists, Stripped(texts, hlen, i))
      invariant Nodes(lists) <= Nodes(qss) && Frame(m0, pool.m, Nodes(qss))
      invariant pool.m.bufs.Keys == m0.bufs.Keys - (Nodes(qss) - Nodes(lists))
      invariant i > 0 ==> Fronted(pool.m, chains[0], front) && chains[0] in Elems(lists[0])
    {
      ghost var m1, was := pool.m, lists;
      ParcelsAt(m1, chains, lists, Stripped(texts, hlen, i), i);
      StrippedStep(texts, hlen, i);
      NodesHas(lists, i);
      var head; ghost var qs;
      head, qs := Arrive(pool, chains[i], hlen, _ => true, lists[i], texts[i]);
      ParcelsPut(m1, pool.m, chains, lists, Stripped(texts, hlen, i), i, head, qs, texts[i][hlen..]);
      FirstIn(qs);
      if i > 0 {
        ApartAt(m1, chains, lists, Stripped(texts, hlen, i), i);
        FrontedFrame(m1, pool.m, Elems(lists[i]), chains[0], front);
      }
      chains, lists := chains[i := head], lists[i := qs];
      FrameWider(m1, pool.m, Elems(was[i]), Nodes(qss));
      FrameTrans(m0, m1, pool.m, Nodes(qss), Nodes(qss), Nodes(qss));
      i := i + 1;
    }
    ghost var m1 := pool.m;
    nb, rs := Hang(pool, chains, lists, Stripped(texts, hlen, |texts|));
    FrontedRelinked(m1, pool.m, chains[0], front);
    FrameWider(m1, pool.m, Nodes(lists), Nodes(qss));
    FrameTrans(m0, m1, pool.m, Nodes(qss), Nodes(qss), Nodes(qss));
    ghost var m2 := pool.m;
    ListHead(m2.bufs, nb, rs);
    NodesHas(lists, 0);
    PutBack(pool, nb, hlen, rs, front);
    assert {nb} <= Nodes(qss);
    FrameTrans(m0, m2, pool.m, Nodes(qss), {nb}, Nodes(qss));
  }

  lemma FirstIn(qs: seq<Ptr>)
    ensures qs != [] ==> qs[0] in Elems(qs)
  {}

  lemma ApartAt(m: Mem, heads: seq<Ptr>, qss: seq<seq<Ptr>>, texts: seq<seq<byte>>, k: nat)
    requires Parcels(m, heads, qss, texts) && 0 < k < |qss|
    ensures Elems(qss[0]) !! Elems(qss[k])
  {}

  /** The window of the joined chain's head grown to the front by a header's length. */
  method PutBack(pool: Netbufs, nb: Ptr, hlen: nat, ghost ps: seq<Ptr>, ghost front: seq<byte>)
    requires WF(pool.m) && Chain(pool.m, nb, ps) && ps != [] && Fronted(pool.m, nb, front) && |front| == hlen
    modifies pool
    ensures WF(pool.m) && Chain(pool.m, nb, ps) && Bytes(pool.m, ps) == front + Bytes(old(pool.m), ps)
    ensures Frame(old(pool.m), pool.m, {nb}) && pool.m.bufs.Keys == old(pool.m).bufs.Keys
  {
    hide WF, Frame, Bytes, Seg;
    var n := pool.m.bufs[nb];
    Grown(pool.m, nb, ps, front);
    pool.m := Edit(pool.m, nb, n.(off := n.off - hlen, length := n.length + hlen, total := n.total + hlen));
  }

  lemma Grown(m: Mem, p: Ptr, ps: seq<Ptr>, front: seq<byte>)
    requires WF(m) && Chain(m, p, ps) && ps != [] && Fronted(m, p, front)
    ensures var n := m.bufs[p];
            var m' := Edit(m, p, n.(off := n.off - |front|, length := n.length + |front|, total := n.total + |front|));
            && WF(m') && Chain(m', p, ps) && Bytes(m', ps) == front + Bytes(m, ps) && Frame(m, m', {p}) && m'.bufs.Keys == m.bufs.Keys
  {
    hide WF, Frame, Bytes, Seg, Window, Distinct;
    var n := m.bufs[p].(off := m.bufs[p].off - |front|, length := m.bufs[p].length + |front|, total := m.bufs[p].total + |front|);
    var m' := Edit(m, p, n);
    ListHead(m.bufs, p, ps);
    WindowSlice(m, p);
    EditOk(m, p, n);
    NodeChanged(m, m', p, ps, 0);
    assert ps[..0] == [];
    BytesNil(m);
    TwoSlices(Buffer(m, p), n.off, m.bufs[p].off, m.bufs[p].off + m.bufs[p].length);
    ThreeParts(front, Window(m, p), Bytes(m, ps[1..]));
  }

  lemma TwoSlices<T>(s: seq<T>, a: nat, b: nat, c: nat)
    requires a <= b <= c <= |s|
    ensures s[a..c] == s[a..b] + s[b..c]
  {}

  lemma ThreeParts<T>(a: seq<T>, b: seq<T>, c: seq<T>)
    ensures [] + ((a + b) + c) == a + ([] + (b + c))
  {}

  /** The joining loop: chain after chain. */
  method Hang(pool: Netbufs, heads: seq<Ptr>, ghost qss: seq<seq<Ptr>>, ghost texts: seq<seq<byte>>) returns (nb: Ptr, ghost rs: seq<Ptr>)
    requires WF(pool.m) && Parcels(pool.m, heads, qss, texts) && heads != []
    modifies pool
    ensures WF(pool.m) && Chain(pool.m, nb, rs) && Bytes(pool.m, rs) == Flat(texts) && Elems(rs) == Nodes(qss)
    ensures Frame(old(pool.m), pool.m, Nodes(qss)) && pool.m.bufs.Keys == old(pool.m).bufs.Keys
    ensures nb == heads[0] != NULL && Relinked(old(pool.m), pool.m)
  {
    hide WF, Frame, Bytes, Seg, Elems, Nodes, Parcel, Parcels, Flat, Apart, Relinked;
    ghost var m0 := pool.m;
    FrameMore(m0, Nodes(qss));
    RelinkedSelf(m0);
    HangStart(m0, heads, qss, texts);
    nb := heads[0];
    var k := 1;
    while k < |heads|
      invariant 1 <= k <= |heads| == |qss| == |texts| && WF(pool.m) && Apart(qss)
      invariant nb == heads[0] && Relinked(m0, pool.m)
      invariant Chain(pool.m, nb, Flat(qss[..k])) && nb != NULL && Bytes(pool.m, Flat(qss[..k])) == Flat(texts[..k])
      invariant Parcels(pool.m, heads[k..], qss[k..], texts[k..])
      invariant Frame(m0, pool.m, Nodes(qss)) && pool.m.bufs.Keys == m0.bufs.Keys
    {
      ghost var m1, done := pool.m, Flat(qss[..k]);
      NodesApart(qss, k);
      FlatElems(qss[..k]);
      ParcelsAt(m1, heads[k..], qss[k..], texts[k..], 0);
      ParcelUse(m1, heads[k], qss[k], texts[k]);
      FlatMore(qss, k);
      FlatMore(texts, k);
      nb := pool.Concat(nb, heads[k], done, qss[k]);
      RelinkedTrans(m0, m1, pool.m);
      ParcelsRest(m1, pool.m, heads, qss, texts, k, Elems(done));
      NodesPrefix(qss, k);
      FrameWider(m1, pool.m, Elems(done), Nodes(qss));
      FrameTrans(m0, m1, pool.m, Nodes(qss), Nodes(qss), Nodes(qss));
      k := k + 1;
    }
    assert qss[..k] == qss && texts[..k] == texts;
    FlatElems(qss);
    rs := Flat(qss);
  }

  lemma ParcelUse(m: Mem, head: Ptr, qs: seq<Ptr>, text: seq<byte>)
    requires Parcel(m, head, qs, text)
    ensures head != NULL && qs != [] && Chain(m, head, qs) && Bytes(m, qs) == text
  {}

  lemma NodesPrefix(qss: seq<seq<Ptr>>, k: nat)
    requires k <= |qss|
    ensures Nodes(qss[..k]) <= Nodes(qss)
  {
    hide Elems;
    forall p | p in Nodes(qss[..k]) ensures p in Nodes(qss) {
      var i :| 0 <= i < k && p in Elems(qss[..k][i]);
      assert p in Elems(qss[i]);
    }
  }

  lemma HangStart(m: Mem, heads: seq<Ptr>, qss: seq<seq<Ptr>>, texts: seq<seq<byte>>)
    requires Parcels(m, heads, qss, texts) && heads != []
    ensures |heads| == |qss| == |texts| && Apart(qss) && Parcel(m, heads[0], qss[0], texts[0])
    ensures Flat(qss[..1]) == qss[0] && Flat(texts[..1]) == texts[0]
    ensures Chain(m, heads[0], Flat(qss[..1])) && heads[0] != NULL && Bytes(m, Flat(qss[..1])) == Flat(texts[..1])
    ensures Parcels(m, heads[1..], qss[1..], texts[1..])
  {
    hide Bytes, Seg, Elems;
    FlatOne(qss[0]);
    FlatOne(texts[0]);
    assert qss[..1] == [qss[0]] && texts[..1] == [texts[0]];
    FrameSelf(m);
    assert heads[0..] == heads && qss[0..] == qss && texts[0..] == texts;
    ParcelsRest(m, m, heads, qss, texts, 0, {});
  }

  lemma StrippedTexts(headers: nat -> seq<byte>, first: seq<byte>, pieces: seq<seq<byte>>, hlen: nat)
    requires |first| == hlen && (forall k: nat :: |headers(k)| == hlen) && forall i :: 0 <= i < |pieces| ==> pieces[i] != []
    ensures var texts := Texts(headers, first, pieces);
            && |texts| == |pieces| && (pieces != [] ==> texts[0][..hlen] == first) && Stripped(texts, hlen, |texts|) == pieces
            && forall i :: 0 <= i < |texts| ==> hlen < |texts[i]|
  {}

  /**
    A datagram fragmented and joined, if the pool serves every fragment: one chain with the bytes of the
    datagram, and nothing else of the datagram or its fragments is alive.  `mid` is the memory between, where
    the fragments share the datagram's buffers.
   */
  method FragmentThenJoin(pool: Netbufs, nb: Ptr, hlen: nat, n: nat, headers: nat -> seq<byte>, forHeaders: nat -> Supply,
                          forCopies: nat -> Supply, ghost ps: seq<Ptr>)
      returns (r: Ptr, ghost rs: seq<Ptr>, ghost mid: Mem, ghost qss: seq<seq<Ptr>>)
    requires WF(pool.m) && Chain(pool.m, nb, ps) && 0 < n && 0 < hlen && hlen + n < |Bytes(pool.m, ps)|
    requires forall k: nat :: |headers(k)| == hlen
    modifies pool
    ensures Frame(old(pool.m), pool.m, Elems(ps))
    ensures r != NULL <==> Stop(old(pool.m), ps, hlen + n, n, forHeaders, forCopies) == |Bytes(old(pool.m), ps)|
    ensures r != NULL ==>
              && WF(pool.m) && Chain(pool.m, r, rs) && Bytes(pool.m, rs) == Bytes(old(pool.m), ps)
              && pool.m.bufs.Keys == old(pool.m).bufs.Keys - Elems(ps) + Elems(rs) && Elems(rs) !! old(pool.m).bufs.Keys - Elems(ps)
    ensures r != NULL ==>
              && |qss| == |Cut(Bytes(old(pool.m), ps)[hlen..], n)| && (forall i :: 1 <= i < |qss| ==> Shares(old(pool.m), ps, mid, qss[i]))
              && Frame(mid, pool.m, Nodes(qss)) && Elems(rs) <= Nodes(qss)
    ensures r == NULL ==>
              var stop := Stop(old(pool.m), ps, hlen + n, n, forHeaders, forCopies);
              && pool.m.bufs == old(pool.m).bufs - Elems(ps) && Safe(pool.m)
              && (WF(pool.m) <==> !Leaky(forHeaders(stop), forCopies(stop)))
  {
    hide WF, Safe, Stranded, Frame, Bytes, Seg, Elems, Nodes, Parcels, Cut, Texts, Stripped, Flat, Stop, GaveOut, Shares, Leaky;
    ghost var m0, b := pool.m, Bytes(pool.m, ps);
    var heads; ghost var made;
    heads, qss, made := MakeFragments(pool, nb, hlen, n, headers, forHeaders, forCopies, ps);
    mid := pool.m;
    if heads == [] {
      ghost var at := Stop(m0, ps, hlen + n, n, forHeaders, forCopies);
      GaveOutUse(m0, mid, ps, at, made, forHeaders(at), forCopies(at));
      r, rs := NULL, [];
      return;
    }
    ghost var pieces := Cut(b[hlen..], n);
    CutPieces(b[hlen..], n);
    CutWhole(b[hlen..], n);
    CutSome(b[hlen..], n);
    StrippedTexts(headers, b[..hlen], pieces, hlen);
    ParcelsCount(mid, heads, qss, Texts(headers, b[..hlen], pieces));
    r, rs := JoinFragments(pool, heads, hlen, qss, Texts(headers, b[..hlen], pieces));
    assert b[..hlen] + b[hlen..] == b;
    ListNonEmpty(pool.m, r, rs);
    JoinedFrame(m0, mid, pool.m, Elems(ps), Nodes(qss));
  }

  lemma CutSome(b: seq<byte>, n: nat)
    requires 0 < n
    ensures Cut(b, n) != []
  {}

  lemma JoinedFrame(m0: Mem, m1: Mem, m2: Mem, s: set<Ptr>, t: set<Ptr>)
    requires Frame(m0, m1, s) && Frame(m1, m2, t) && t !! m0.bufs.Keys - s
    ensures Frame(m0, m2, s)
  {
    FrameTrans(m0, m1, m2, s, t, s);
  }

  /**
    A memory that held only the datagram has no netbufs when the joined chain, if there is one, is freed; and no
    buffers, unless fragmenting ran out of memory in the copy of a second netbuf.
   */
  method FragmentJoinFree(pool: Netbufs, nb: Ptr, hlen: nat, n: nat, headers: nat -> seq<byte>, forHeaders: nat -> Supply,
                          forCopies: nat -> Supply, ghost ps: seq<Ptr>)
      returns (sent: bool)
    requires WF(pool.m) && Chain(pool.m, nb, ps) && 0 < n && 0 < hlen && hlen + n < |Bytes(pool.m, ps)|
    requires (forall k: nat :: |headers(k)| == hlen) && pool.m.bufs.Keys == Elems(ps)
    modifies pool
    ensures sent <==> Stop(old(pool.m), ps, hlen + n, n, forHeaders, forCopies) == |Bytes(old(pool.m), ps)|
    ensures var stop := Stop(old(pool.m), ps, hlen + n, n, forHeaders, forCopies);
            && pool.m.bufs == map[] && (pool.m.datas == map[] <==> sent || !Leaky(forHeaders(stop), forCopies(stop)))
  {
    hide WF, Safe, Stranded, Frame, Bytes, Seg, Elems, Stop, Shares, Nodes, Leaky;
    var r; ghost var rs, mid, qss;
    r, rs, mid, qss := FragmentThenJoin(pool, nb, hlen, n, headers, forHeaders, forCopies, ps);
    sent := r != NULL;
    if r != NULL {
      SafeIff(pool.m);
      pool.FreeChain(r, rs);
    }
    NoBuffers(pool.m);
  }

  lemma NoBuffers(m: Mem)
    requires m.bufs == map[]
    ensures WF(m) <==> m.datas == map[]
  {
    if WF(m) {
      NothingLeft(m);
    }
  }
}
