/** Cutting bytes out of the middle of a chain, as changes of the memory. */
module NetbufCut {
  import opened Words
  import opened NetbufMem
  import opened NetbufPull

  /** Bytes `a` to `a + n` taken out. */
  ghost function Without<T>(s: seq<T>, a: nat, n: nat): seq<T>
    requires a + n <= |s|
  {
    s[..a] + s[a + n..]
  }

  lemma WithoutMid<T>(s: seq<T>, x: seq<T>, w: seq<T>, y: seq<T>, a: nat, n: nat)
    requires s == x + (w + y) && a + n <= |w|
    ensures |x| + a + n <= |s|
    ensures Without(s, |x| + a, n) == x + (w[..a] + w[a + n..] + y)
  {}

  /** The cut begins in `w` at `a` and ends in `y`. */
  lemma WithoutTail<T>(s: seq<T>, x: seq<T>, w: seq<T>, y: seq<T>, a: nat, n: nat)
    requires s == x + (w + y) && a <= |w| <= a + n <= |w| + |y|
    ensures |x| + a + n <= |s|
    ensures Without(s, |x| + a, n) == x + w[..a] + y[a + n - |w|..]
  {}

  /** A changed netbuf in an unchanged list. */
  lemma NodeChanged(m0: Mem, m: Mem, nb: Ptr, ps: seq<Ptr>, i: nat)
    requires List(m0.bufs, nb, ps) && i < |ps| && Frame(m0, m, {ps[i]})
    requires ps[i] in m0.bufs && ps[i] in m.bufs && m.bufs[ps[i]].next == m0.bufs[ps[i]].next
    ensures List(m.bufs, nb, ps) && Bytes(m, ps) == Bytes(m0, ps[..i]) + (Window(m, ps[i]) + Bytes(m0, ps[i + 1..]))
    ensures Bytes(m0, ps) == Bytes(m0, ps[..i]) + (Window(m0, ps[i]) + Bytes(m0, ps[i + 1..]))
    ensures Bytes(m, ps[..i + 1]) == Bytes(m0, ps[..i]) + Window(m, ps[i])
  {
    hide Frame, Bytes, Window, Elems, Distinct;
    ListDistinct(m0.bufs, nb, ps);
    SegAt(m0.bufs, nb, ps, NULL, i);
    Elsewhere(ps, i);
    FrameBytes(m0, m, {ps[i]}, nb, ps[..i], ps[i]);
    FrameBytes(m0, m, {ps[i]}, m0.bufs[ps[i]].next, ps[i + 1..], NULL);
    BytesAt(m0, ps, i);
    BytesAt(m, ps, i);
    NextsKept(m0, m, nb, ps, i);
  }

  lemma NextsKept(m0: Mem, m: Mem, nb: Ptr, ps: seq<Ptr>, i: nat)
    requires List(m0.bufs, nb, ps) && i < |ps| && Frame(m0, m, {ps[i]})
    requires ps[i] in m0.bufs && ps[i] in m.bufs && m.bufs[ps[i]].next == m0.bufs[ps[i]].next
    ensures List(m.bufs, nb, ps)
  {
    hide Window, Seg, Bytes;
    SegIn(m0.bufs, nb, ps, NULL);
    SegSame(m0.bufs, m.bufs, nb, ps, NULL);
  }

  /** Moving the end of a window over its middle, in a buffer with one reference. */
  lemma CutInPlace(m: Mem, p: Ptr, a: nat, n: nat)
    requires WF(m) && p in m.bufs && m.bufs[p].data in m.datas && m.datas[m.bufs[p].data].refs == 1
    requires a + n <= m.bufs[p].length
    ensures InRange(m, m.bufs[p])
    ensures var w := m.bufs[p]; var b := m.datas[w.data].bytes;
            var m1 := Write(m, p, Put(b, w.off + a, b[w.off + a + n..w.off + w.length]));
            var m2 := Edit(m1, p, w.(length := w.length - n));
            && WF(m2) && Frame(m, m2, {p}) && m2.bufs.Keys == m.bufs.Keys
            && |Window(m, p)| == w.length && Window(m2, p) == Window(m, p)[..a] + Window(m, p)[a + n..]
  {
    hide Counted, NodesOk, Frame, Window, Put;
    WindowLen(m, p);
    WindowSlice(m, p);
    var w, b := m.bufs[p], m.datas[m.bufs[p].data].bytes;
    var bytes := Put(b, w.off + a, b[w.off + a + n..w.off + w.length]);
    WriteOk(m, p, bytes);
    EditOk(Write(m, p, bytes), p, w.(length := w.length - n));
    FrameTrans(m, Write(m, p, bytes), Edit(Write(m, p, bytes), p, w.(length := w.length - n)), {p}, {p}, {p});
    PutWindow(b, w.off, w.length, a, n);
  }

  lemma PutWindow(b: seq<byte>, off: nat, length: nat, a: nat, n: nat)
    requires off + length <= |b| && a + n <= length
    ensures Put(b, off + a, b[off + a + n..off + length])[off..off + length - n]
         == b[off..off + length][..a] + b[off..off + length][a + n..]
  {}

  /** Shortening a window to its first `a` bytes. */
  lemma CutEnd(m: Mem, p: Ptr, a: nat)
    requires WF(m) && p in m.bufs && a <= m.bufs[p].length
    ensures var m1 := Edit(m, p, m.bufs[p].(length := a));
            && WF(m1) && Frame(m, m1, {p}) && m1.bufs.Keys == m.bufs.Keys
            && |Window(m, p)| == m.bufs[p].length && Window(m1, p) == Window(m, p)[..a]
  {
    hide Counted, NodesOk, Frame, Window;
    WindowLen(m, p);
    WindowSlice(m, p);
    EditOk(m, p, m.bufs[p].(length := a));
    PrefixOf(m.datas[m.bufs[p].data].bytes, m.bufs[p].off, m.bufs[p].length, a);
  }

  lemma PrefixOf(b: seq<byte>, off: nat, length: nat, a: nat)
    requires a <= length && off + length <= |b|
    ensures b[off..off + length][..a] == b[off..off + a]
  {}

  /** The total written to the netbuf that the trim starts at. */
  lemma AfterTotal(m: Mem, nb: Ptr, ps: seq<Ptr>, k: nat, total: nat)
    requires WF(m) && List(m.bufs, nb, ps) && 1 <= k < |ps| && ps[k] in m.bufs
    ensures var m1 := Edit(m, ps[k], m.bufs[ps[k]].(total := total));
            && WF(m1) && List(m1.bufs, ps[k], ps[k..]) && Frame(m, m1, {ps[k]}) && m1.bufs.Keys == m.bufs.Keys
            && Bytes(m1, ps[k..]) == Bytes(m, ps[k..])
  {
    hide Counted, NodesOk, Frame, Shows, Bytes, Seg;
    var n := m.bufs[ps[k]].(total := total);
    LinkOk(m, ps[k], n);
    SegAt(m.bufs, nb, ps, NULL, k);
    SegIn(m.bufs, ps[k], ps[k..], NULL);
    SegSame(m.bufs, Edit(m, ps[k], n).bufs, ps[k], ps[k..], NULL);
    ShowsBytes(m, Edit(m, ps[k], n), ps[k..]);
  }

  /** The first `k` netbufs are as they were. */
  lemma PrefixKept(m0: Mem, m1: Mem, m2: Mem, nb: Ptr, ps: seq<Ptr>, k: nat)
    requires List(m0.bufs, nb, ps) && 1 <= k < |ps|
    requires Frame(m0, m1, {ps[k]}) && Frame(m1, m2, Elems(ps[k..]))
    ensures Seg(m2.bufs, nb, ps[..k], ps[k]) && Bytes(m2, ps[..k]) == Bytes(m0, ps[..k]) && Distinct(ps[..k])
    ensures nb in m0.bufs && nb in m2.bufs && m2.bufs[nb] == m0.bufs[nb] && nb == ps[0]
    ensures ps[k - 1] in m2.bufs && ps[k - 1] in m0.bufs
    ensures Frame(m0, m2, Elems(ps[k..])) && Elems(ps[..k]) !! Elems(ps[k..]) && Elems(ps) == Elems(ps[..k]) + Elems(ps[k..])
  {
    hide Frame, Bytes, Seg, Window;
    SegAt(m0.bufs, nb, ps, NULL, k);
    SegAt(m0.bufs, nb, ps, NULL, 0);
    ListDistinct(m0.bufs, nb, ps);
    ElemsApart(ps, k);
    assert ps == ps[..k] + ps[k..];
    assert ps[k..][0] == ps[k];
    FrameTrans(m0, m1, m2, {ps[k]}, Elems(ps[k..]), Elems(ps[k..]));
    FrameSeg(m0, m2, Elems(ps[k..]), nb, ps[..k], ps[k]);
    SegIn(m2.bufs, nb, ps[..k], ps[k]);
    SegIn(m0.bufs, nb, ps[..k], ps[k]);
    assert ps[..k][0] == ps[0] && ps[..k][k - 1] == ps[k - 1];
    HeadOf(m0, nb, ps);
    FrameAt(m0, m2, Elems(ps[k..]), nb);
  }

  lemma HeadOf(m: Mem, nb: Ptr, ps: seq<Ptr>)
    requires List(m.bufs, nb, ps) && ps != []
    ensures nb == ps[0] && nb in m.bufs
  {}

  /** The netbufs a trim in the middle of a list removes. */
  lemma TrimmedElems(ps: seq<Ptr>, k: nat, j: nat)
    requires Distinct(ps) && k <= |ps| && j <= |ps| - k
    ensures Elems(ps[k..][..j]) == Elems(ps) - Elems(ps[..k] + ps[k + j..]) && Elems(ps[..k] + ps[k + j..]) <= Elems(ps)
    ensures Elems(ps[..k]) !! Elems(ps[k + j..])
  {
    var a, b, c := ps[..k], ps[k..][..j], ps[k + j..];
    assert ps == a + b + c;
    assert ps[..k + j] == a + b;
    ElemsApart(ps, k);
    ElemsApart(ps, k + j);
    assert ps[k..] == b + c;
  }

  /** Hanging what is left of the trimmed list on the netbuf before it. */
  lemma AfterTrim(m0: Mem, m1: Mem, m2: Mem, nb: Ptr, ps: seq<Ptr>, k: nat, q: Ptr, qs: seq<Ptr>)
    requires List(m0.bufs, nb, ps) && 1 <= k < |ps| && |qs| <= |ps| - k && qs == ps[k..][|ps| - k - |qs|..]
    requires Frame(m0, m1, {ps[k]}) && Frame(m1, m2, Elems(ps[k..]))
    requires WF(m2) && List(m2.bufs, q, qs)
    ensures ps[k - 1] in m2.bufs && nb in m0.bufs
    ensures var m3 := Edit(m2, ps[k - 1], m2.bufs[ps[k - 1]].(next := q));
            && WF(m3) && List(m3.bufs, nb, ps[..k] + qs) && Bytes(m3, ps[..k] + qs) == Bytes(m0, ps[..k]) + Bytes(m2, qs)
            && Frame(m0, m3, Elems(ps)) && nb in m3.bufs && m3.bufs[nb].total == m0.bufs[nb].total
  {
    hide Counted, NodesOk, Frame, Bytes, Seg, Window, Elems, Distinct, Shows;
    PrefixKept(m0, m1, m2, nb, ps, k);
    ListDistinct(m0.bufs, nb, ps);
    TrimmedElems(ps, k, |ps| - k - |qs|);
    assert ps[k..][|ps| - k - |qs|..] == ps[|ps| - |qs|..];
    var l, n := ps[k - 1], m2.bufs[ps[k - 1]].(next := q);
    assert ps[..k][k - 1] == l;
    JoinSeg(m2, nb, ps[..k], ps[k], q, qs, n);
    PrevIn(ps, k);
    FrameTrans(m0, m2, Edit(m2, l, n), Elems(ps[k..]), {l}, Elems(ps));
  }

  /** The netbufs alive after that trim. */
  lemma AfterTrimKeys(m0: Mem, m1: Mem, m2: Mem, nb: Ptr, ps: seq<Ptr>, k: nat, qs: seq<Ptr>)
    requires List(m0.bufs, nb, ps) && 1 <= k < |ps| && |qs| <= |ps| - k && qs == ps[k..][|ps| - k - |qs|..]
    requires m1.bufs.Keys == m0.bufs.Keys && m2.bufs.Keys == m1.bufs.Keys - Elems(ps[k..][..|ps| - k - |qs|])
    ensures m2.bufs.Keys == m0.bufs.Keys - (Elems(ps) - Elems(ps[..k] + qs)) && Elems(ps[..k] + qs) <= Elems(ps)
  {
    hide Seg, Elems, Distinct;
    ListDistinct(m0.bufs, nb, ps);
    TrimmedElems(ps, k, |ps| - k - |qs|);
    assert ps[k..][|ps| - k - |qs|..] == ps[|ps| - |qs|..];
  }

  lemma PrevIn(ps: seq<Ptr>, k: nat)
    requires 1 <= k <= |ps|
    ensures ps[k - 1] in Elems(ps) && Elems(ps[k..]) <= Elems(ps)
  {}

  /** A new netbuf that takes over the rest of a list. */
  lemma SharedNew(m0: Mem, m1: Mem, nb: Ptr, ps: seq<Ptr>, i: nat, x: Ptr)
    requires WF(m1) && List(m0.bufs, nb, ps) && i < |ps| && ps[i] in m0.bufs && Frame(m0, m1, {})
    requires x !in m0.bufs && List(m1.bufs, x, [x])
    ensures x in m1.bufs && ps[i] in m1.bufs && m1.bufs[ps[i]] == m0.bufs[ps[i]] && Window(m1, ps[i]) == Window(m0, ps[i])
    ensures List(m1.bufs, nb, ps) && x !in ps && Bytes(m1, ps[..i]) == Bytes(m0, ps[..i])
    ensures Bytes(m1, ps[i + 1..]) == Bytes(m0, ps[i + 1..])
    ensures var m2 := Edit(m1, x, m1.bufs[x].(next := m0.bufs[ps[i]].next));
            && WF(m2) && List(m2.bufs, x, [x] + ps[i + 1..]) && Frame(m1, m2, {x}) && m2.bufs.Keys == m1.bufs.Keys
            && Bytes(m2, [x] + ps[i + 1..]) == Bytes(m1, [x]) + Bytes(m0, ps[i + 1..])
  {
    hide Counted, NodesOk, Frame, Bytes, Seg, Window, Distinct, Shows;
    SegIn(m0.bufs, nb, ps, NULL);
    FrameAt(m0, m1, {}, ps[i]);
    FrameList(m0, m1, {}, nb, ps);
    SegAt(m0.bufs, nb, ps, NULL, i);
    FrameSeg(m0, m1, {}, nb, ps[..i], ps[i]);
    FrameList(m0, m1, {}, m0.bufs[ps[i]].next, ps[i + 1..]);
    SegIn(m1.bufs, x, [x], NULL);
    assert Distinct([x]) by { OneDistinct(x); }
    assert [x][0] == x && Elems([x]) == {x};
    JoinSeg(m1, x, [x], NULL, m0.bufs[ps[i]].next, ps[i + 1..], m1.bufs[x].(next := m0.bufs[ps[i]].next));
  }

  lemma OneDistinct(x: Ptr)
    ensures Distinct([x])
  {}

  /** The cut netbuf ends at the cut and leads to the new one. */
  lemma SharedCut(m0: Mem, m1: Mem, m2: Mem, nb: Ptr, ps: seq<Ptr>, i: nat, x: Ptr, at: nat, n: nat)
    requires WF(m2) && List(m0.bufs, nb, ps) && i < |ps| && ps[i] in m0.bufs && nb in m0.bufs
    requires Frame(m0, m1, {}) && Frame(m1, m2, {x}) && x !in ps && x !in m0.bufs && m1.bufs.Keys == m0.bufs.Keys + {x}
    requires m2.bufs.Keys == m1.bufs.Keys && List(m2.bufs, x, [x] + ps[i + 1..])
    requires at + n <= |Window(m0, ps[i])| && Bytes(m2, [x] + ps[i + 1..]) == Window(m0, ps[i])[at + n..] + Bytes(m0, ps[i + 1..])
    requires |Window(m0, ps[i])| == m0.bufs[ps[i]].length
    ensures ps[i] in m2.bufs && m2.bufs[ps[i]] == m0.bufs[ps[i]]
    ensures var rs := ps[..i + 1] + ([x] + ps[i + 1..]);
            var m3 := Edit(m2, ps[i], m0.bufs[ps[i]].(next := x, length := at));
            && WF(m3) && List(m3.bufs, nb, rs) && nb in m3.bufs && m3.bufs[nb].total == m0.bufs[nb].total
            && Bytes(m3, rs) == Bytes(m0, ps[..i]) + (Window(m0, ps[i])[..at] + Window(m0, ps[i])[at + n..] + Bytes(m0, ps[i + 1..]))
            && Frame(m0, m3, Elems(ps))
    ensures m2.bufs.Keys == m0.bufs.Keys + Elems(ps[..i + 1] + ([x] + ps[i + 1..]))
    ensures Elems(ps) <= Elems(ps[..i + 1] + ([x] + ps[i + 1..]))
    ensures forall y :: y in ps[..i + 1] + ([x] + ps[i + 1..]) ==> y in ps || y !in m0.bufs
  {
    hide Counted, NodesOk, Frame, Bytes, Seg, Window, Distinct, Shows, Elems;
    var cur, rest := ps[i], [x] + ps[i + 1..];
    SegIn(m0.bufs, nb, ps, NULL);
    FrameTrans(m0, m1, m2, {}, {x}, {});
    FrameAt(m0, m2, {}, cur);
    FrameList(m0, m2, {}, nb, ps);
    SegAt(m0.bufs, nb, ps, NULL, i);
    FrameSeg(m0, m2, {}, nb, ps[..i], cur);
    CutEnd(m2, cur, at);
    var mA := Edit(m2, cur, m2.bufs[cur].(length := at));
    NodeChanged(m2, mA, nb, ps, i);
    SegAt(mA.bufs, nb, ps, NULL, i);
    ListDistinct(m0.bufs, nb, ps);
    SharedApart(ps, i, x);
    ElemsSub(ps, m0.bufs.Keys);
    FrameList(m2, mA, {cur}, x, rest);
    SegSplit(mA.bufs, nb, ps, NULL, i + 1);
    JoinSeg(mA, nb, ps[..i + 1], if i + 1 < |ps| then ps[i + 1] else NULL, x, rest, mA.bufs[cur].(next := x));
    var m3 := Edit(m2, cur, m0.bufs[cur].(next := x, length := at));
    assert Edit(mA, cur, mA.bufs[cur].(next := x)) == m3;
    var w := Window(m0, cur);
    Assoc(Bytes(m0, ps[..i]), w[..at], w[at + n..], Bytes(m0, ps[i + 1..]));
    HeadOf(m0, nb, ps);
    FrameAt(m0, m2, {}, nb);
    FrameTrans(m2, mA, m3, {cur}, {cur}, {cur});
    FrameTrans(m0, m2, m3, {}, {cur}, Elems(ps));
  }

  lemma Assoc<T>(a: seq<T>, b: seq<T>, c: seq<T>, d: seq<T>)
    ensures (a + b) + (c + d) == a + (b + c + d)
  {}

  lemma ElemsSub(ps: seq<Ptr>, s: set<Ptr>)
    requires forall x :: x in ps ==> x in s
    ensures Elems(ps) <= s
  {}

  /** The netbufs before and after the new one. */
  lemma SharedApart(ps: seq<Ptr>, i: nat, x: Ptr)
    requires Distinct(ps) && i < |ps| && x !in ps
    ensures Elems(ps[..i + 1]) !! Elems([x] + ps[i + 1..]) && Distinct(ps[..i + 1])
    ensures ps[i] in Elems(ps) && ps[i] !in [x] + ps[i + 1..]
    ensures forall y :: y in ps[..i + 1] + ([x] + ps[i + 1..]) ==> y in ps || y == x
    ensures ps[..i + 1] != [] && ps[..i + 1][|ps[..i + 1]| - 1] == ps[i]
    ensures Elems(ps[..i + 1] + ([x] + ps[i + 1..])) == Elems(ps) + {x}
  {
    ElemsApart(ps, i + 1);
    Elsewhere(ps, i);
    assert ps == ps[..i + 1] + ps[i + 1..];
  }

  /** The cut of `len` bytes at `offset` leaves bytes of netbuf `i` on both sides. */
  ghost predicate Inside(m: Mem, ps: seq<Ptr>, i: nat, offset: nat, len: nat) {
    i < |ps| && |Bytes(m, ps[..i])| < offset && offset + len < |Bytes(m, ps[..i + 1])|
  }

  lemma InsideAt(m: Mem, ps: seq<Ptr>, i: nat, offset: nat, len: nat)
    requires Holds(m, ps, i, offset)
    ensures forall j: nat :: Inside(m, ps, j, offset, len) ==> j == i
  {
    forall j: nat | Inside(m, ps, j, offset, len) ensures j == i {
      HoldsOne(m, ps, i, j, offset);
    }
  }

  /** The bytes are cut; only the head's total is still the old one. */
  ghost predicate CutState(m0: Mem, m: Mem, nb: Ptr, ps: seq<Ptr>, rs: seq<Ptr>, offset: nat, len: nat) {
    && WF(m) && List(m.bufs, nb, rs) && nb in m0.bufs && nb in m.bufs && m.bufs[nb].total == m0.bufs[nb].total
    && nb in Elems(ps)
    && offset + len <= |Bytes(m0, ps)| && Bytes(m, rs) == Without(Bytes(m0, ps), offset, len)
    && Frame(m0, m, Elems(ps)) && m.bufs.Keys == m0.bufs.Keys - (Elems(ps) - Elems(rs)) + Elems(rs)
    && (forall x :: x in rs ==> x in ps || x !in m0.bufs)
  }

  lemma HeadElem(m: Mem, nb: Ptr, ps: seq<Ptr>)
    requires List(m.bufs, nb, ps) && ps != []
    ensures nb in Elems(ps) && nb in m.bufs && nb == ps[0] && Elems(ps) <= m.bufs.Keys
  {
    SegIn(m.bufs, nb, ps, NULL);
  }

  lemma ElemsSubset(rs: seq<Ptr>, ps: seq<Ptr>)
    requires Elems(rs) <= Elems(ps)
    ensures forall x :: x in rs ==> x in ps
  {
    forall x | x in rs ensures x in ps {
      assert x in Elems(rs);
    }
  }

  /** Writing the head's total finishes a cut. */
  lemma CutFinish(m0: Mem, m: Mem, nb: Ptr, ps: seq<Ptr>, rs: seq<Ptr>, offset: nat, len: nat)
    requires CutState(m0, m, nb, ps, rs, offset, len) && m0.bufs[nb].total == |Bytes(m0, ps)|
    ensures nb in m.bufs && m.bufs[nb].total >= len && offset + len <= |Bytes(m0, ps)|
    ensures var m' := Edit(m, nb, m.bufs[nb].(total := m.bufs[nb].total - len));
            && WF(m') && Chain(m', nb, rs) && Frame(m0, m', Elems(ps))
            && Bytes(m', rs) == Without(Bytes(m0, ps), offset, len)
            && m'.bufs.Keys == m0.bufs.Keys - (Elems(ps) - Elems(rs)) + Elems(rs)
            && forall x :: x in rs ==> x in ps || x !in m0.bufs
  {
    hide Counted, NodesOk, Frame, Bytes, Seg, Window, Elems;
    SetTotal(m, nb, rs, m.bufs[nb].total - len);
    FrameTrans(m0, m, Edit(m, nb, m.bufs[nb].(total := m.bufs[nb].total - len)), Elems(ps), {nb}, Elems(ps));
  }

  /** The cut begins where netbuf `i` does. */
  lemma CutStart(m0: Mem, m: Mem, nb: Ptr, ps: seq<Ptr>, rs: seq<Ptr>, i: nat, offset: nat, len: nat)
    requires List(m0.bufs, nb, ps) && i < |ps| && offset == |Bytes(m0, ps[..i])| && offset + len <= |Bytes(m0, ps)|
    requires WF(m) && List(m.bufs, nb, rs) && nb in m.bufs && nb in m0.bufs && m.bufs[nb].total == m0.bufs[nb].total
    requires len <= |Bytes(m0, ps[i..])| && Bytes(m, rs) == Bytes(m0, ps[..i]) + Bytes(m0, ps[i..])[len..]
    requires Frame(m0, m, Elems(ps)) && m.bufs.Keys == m0.bufs.Keys - (Elems(ps) - Elems(rs)) && Elems(rs) <= Elems(ps)
    ensures CutState(m0, m, nb, ps, rs, offset, len)
  {
    hide WF, Frame, Bytes, Seg, Window, Elems;
    BytesAt(m0, ps, i);
    HeadElem(m0, nb, ps);
    ElemsSubset(rs, ps);
  }

  /** The cut was made by moving bytes inside the netbuf's own buffer. */
  lemma CutMoved(m: Mem, nb: Ptr, ps: seq<Ptr>, i: nat, at: nat, len: nat)
    requires WF(m) && List(m.bufs, nb, ps) && i < |ps| && ps[i] in m.bufs && nb in m.bufs
    requires m.bufs[ps[i]].data in m.datas && InRange(m, m.bufs[ps[i]])
    requires m.datas[m.bufs[ps[i]].data].refs == 1 && at + len < m.bufs[ps[i]].length
    ensures var w := m.bufs[ps[i]]; var b := m.datas[w.data].bytes;
            var m1 := Write(m, ps[i], Put(b, w.off + at, b[w.off + at + len..w.off + w.length]));
            CutState(m, Edit(m1, ps[i], w.(length := w.length - len)), nb, ps, ps, |Bytes(m, ps[..i])| + at, len)
  {
    hide WF, Frame, Bytes, Seg, Window, Elems, Without, CutState, Put, Write;
    CutInPlace(m, ps[i], at, len);
    var w := m.bufs[ps[i]];
    var b := m.datas[w.data].bytes;
    var m2 := Edit(Write(m, ps[i], Put(b, w.off + at, b[w.off + at + len..w.off + w.length])), ps[i], w.(length := w.length - len));
    NodeChanged(m, m2, nb, ps, i);
    WithoutMid(Bytes(m, ps), Bytes(m, ps[..i]), Window(m, ps[i]), Bytes(m, ps[i + 1..]), at, len);
    HeadElem(m, nb, ps);
    AtElem(ps, i);
    FrameWider(m, m2, {ps[i]}, Elems(ps));
    FrameMore(m, {ps[i]});
    HeadKept(m, m2, nb, ps, i);
    TailDone(m, m, m2, nb, ps, ps, i, |Bytes(m, ps[..i])| + at, len);
  }

  /** The head's total, where only netbuf `i` has changed, and not its total. */
  lemma HeadKept(m: Mem, m': Mem, nb: Ptr, ps: seq<Ptr>, i: nat)
    requires i < |ps| && Frame(m, m', {ps[i]}) && nb in m.bufs && ps[i] in m.bufs && ps[i] in m'.bufs
    requires m'.bufs[ps[i]].total == m.bufs[ps[i]].total
    ensures nb in m'.bufs && m'.bufs[nb].total == m.bufs[nb].total
  {}

  lemma AtElem(ps: seq<Ptr>, i: nat)
    requires i < |ps|
    ensures ps[i] in Elems(ps)
  {}

  /** The cut was made by splitting a shared netbuf. */
  lemma CutSplit(m0: Mem, m: Mem, nb: Ptr, ps: seq<Ptr>, rs: seq<Ptr>, i: nat, at: nat, len: nat)
    requires WF(m0) && List(m0.bufs, nb, ps) && i < |ps| && nb in m0.bufs
    requires WF(m) && List(m.bufs, nb, rs) && nb in m.bufs && m.bufs[nb].total == m0.bufs[nb].total
    requires at + len <= |Window(m0, ps[i])|
    requires Bytes(m, rs) == Bytes(m0, ps[..i]) + (Window(m0, ps[i])[..at] + Window(m0, ps[i])[at + len..] + Bytes(m0, ps[i + 1..]))
    requires Frame(m0, m, Elems(ps)) && m.bufs.Keys == m0.bufs.Keys + Elems(rs) && m.bufs.Keys >= m0.bufs.Keys
    requires Elems(ps) <= Elems(rs)
    requires forall x :: x in rs ==> x in ps || x !in m0.bufs
    ensures CutState(m0, m, nb, ps, rs, |Bytes(m0, ps[..i])| + at, len)
  {
    hide WF, Frame, Bytes, Seg, Window, Elems;
    BytesAt(m0, ps, i);
    WithoutMid(Bytes(m0, ps), Bytes(m0, ps[..i]), Window(m0, ps[i]), Bytes(m0, ps[i + 1..]), at, len);
    HeadElem(m0, nb, ps);
  }

  lemma MoreAfter(m: Mem, ps: seq<Ptr>, i: nat)
    requires i < |ps| && |Bytes(m, ps[..i])| + |Window(m, ps[i])| < |Bytes(m, ps)|
    ensures i + 1 < |ps|
  {
    BytesAt(m, ps, i);
    assert ps[..|ps|] == ps;
  }

  /** After the netbuf where the cut begins is shortened. */
  lemma TailEnds(m0: Mem, m1: Mem, nb: Ptr, ps: seq<Ptr>, i: nat, at: nat)
    requires WF(m0) && List(m0.bufs, nb, ps) && i < |ps| && ps[i] in m0.bufs && nb in m0.bufs && at <= |Window(m0, ps[i])|
    requires m1 == Edit(m0, ps[i], m0.bufs[ps[i]].(length := at)) && Frame(m0, m1, {ps[i]}) && Window(m1, ps[i]) == Window(m0, ps[i])[..at]
    ensures List(m1.bufs, nb, ps) && nb in m1.bufs && m1.bufs[nb].total == m0.bufs[nb].total
    ensures Bytes(m1, ps[..i + 1]) == Bytes(m0, ps[..i]) + Window(m0, ps[i])[..at]
    ensures Bytes(m1, ps[i + 1..]) == Bytes(m0, ps[i + 1..])
    ensures Bytes(m1, ps) == Bytes(m0, ps[..i]) + (Window(m0, ps[i])[..at] + Bytes(m0, ps[i + 1..]))
  {
    hide WF, Frame, Bytes, Seg, Window, Elems, Distinct;
    NodeChanged(m0, m1, nb, ps, i);
    ListDistinct(m0.bufs, nb, ps);
    Elsewhere(ps, i);
    SegAt(m0.bufs, nb, ps, NULL, i);
    FrameBytes(m0, m1, {ps[i]}, m0.bufs[ps[i]].next, ps[i + 1..], NULL);
  }

  lemma TailBytes(m0: Mem, m1: Mem, ps: seq<Ptr>, i: nat, at: nat, len: nat, b: seq<byte>)
    requires WF(m0) && i < |ps| && at < |Window(m0, ps[i])| <= at + len && |Bytes(m0, ps[..i])| + at + len <= |Bytes(m0, ps)|
    requires Bytes(m1, ps[..i + 1]) == Bytes(m0, ps[..i]) + Window(m0, ps[i])[..at]
    requires Bytes(m1, ps[i + 1..]) == Bytes(m0, ps[i + 1..])
    requires at + len - |Window(m0, ps[i])| <= |Bytes(m1, ps[i + 1..])|
    requires b == Bytes(m1, ps[..i + 1]) + Bytes(m1, ps[i + 1..])[at + len - |Window(m0, ps[i])|..]
    ensures b == Without(Bytes(m0, ps), |Bytes(m0, ps[..i])| + at, len)
  {
    hide WF, Bytes, Window;
    BytesAt(m0, ps, i);
    WithoutTail(Bytes(m0, ps), Bytes(m0, ps[..i]), Window(m0, ps[i]), Bytes(m0, ps[i + 1..]), at, len);
  }

  /** The rest of a netbuf and what follows up to the cut's length are gone. */
  lemma TailDone(m0: Mem, m1: Mem, m: Mem, nb: Ptr, ps: seq<Ptr>, rs: seq<Ptr>, i: nat, offset: nat, len: nat)
    requires List(m0.bufs, nb, ps) && i < |ps| && nb in m0.bufs
    requires Frame(m0, m1, {ps[i]}) && m1.bufs.Keys == m0.bufs.Keys && Frame(m1, m, Elems(ps))
    requires WF(m) && List(m.bufs, nb, rs) && nb in m.bufs && m.bufs[nb].total == m0.bufs[nb].total
    requires m.bufs.Keys == m1.bufs.Keys - (Elems(ps) - Elems(rs)) && Elems(rs) <= Elems(ps)
    requires offset + len <= |Bytes(m0, ps)| && Bytes(m, rs) == Without(Bytes(m0, ps), offset, len)
    ensures CutState(m0, m, nb, ps, rs, offset, len)
  {
    hide WF, Frame, Bytes, Seg, Elems;
    HeadElem(m0, nb, ps);
    ElemsSubset(rs, ps);
    AtElem(ps, i);
    FrameTrans(m0, m1, m, {ps[i]}, Elems(ps), Elems(ps));
  }
}
