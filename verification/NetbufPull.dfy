/** Gathering the first bytes of a chain in one buffer, as changes of the memory. */
module NetbufPull {
  import opened Words
  import opened NetbufMem

  /** `src` written over `bytes` from position `at`. */
  function Put(bytes: seq<byte>, at: nat, src: seq<byte>): (r: seq<byte>)
    requires at + |src| <= |bytes|
    ensures |r| == |bytes| && r[..at + |src|] == bytes[..at] + src
  {
    bytes[..at] + src + bytes[at + |src|..]
  }

  /**
    The head of chain `ps` has buffer `d` of `len` bytes to itself, the bytes of the first `j` netbufs
    are in it, and the netbufs between are gone.
   */
  ghost predicate Pulled(m0: Mem, m: Mem, ps: seq<Ptr>, d: Ptr, j: nat, len: nat) {
    && 1 <= j <= |ps| && ps[0] in m0.bufs && ps[0] in m.bufs && WF(m)
    && d in m.datas && m.datas[d].refs == 1 && |m.datas[d].bytes| == len
    && m.bufs[ps[0]] == m0.bufs[ps[0]].(data := d, off := 0) && m.bufs[ps[0]].length <= |Bytes(m0, ps[..j])| <= len
    && m.datas[d].bytes[..|Bytes(m0, ps[..j])|] == Bytes(m0, ps[..j])
    && m.bufs.Keys == m0.bufs.Keys - Elems(ps[1..j])
    && Frame(m0, m, Elems(ps[..j]))
  }

  lemma PulledUse(m0: Mem, m: Mem, ps: seq<Ptr>, d: Ptr, j: nat, len: nat)
    requires Pulled(m0, m, ps, d, j, len)
    ensures 1 <= j <= |ps| && WF(m) && ps[0] in m.bufs && ps[0] in m0.bufs && d in m.datas && |m.datas[d].bytes| == len
    ensures m.datas[d].refs == 1 && m.bufs.Keys == m0.bufs.Keys - Elems(ps[1..j])
    ensures m.bufs[ps[0]] == m0.bufs[ps[0]].(data := d, off := 0) && |Bytes(m0, ps[..j])| <= len
    ensures Frame(m0, m, Elems(ps[..j]))
  {}

  /** A buffer with one reference is on one netbuf. */
  lemma OneRef(m: Mem, p: Ptr, q: Ptr)
    requires WF(m) && p in m.bufs && q in m.bufs && p != q && m.bufs[p].data in m.datas
    requires m.datas[m.bufs[p].data].refs == 1
    ensures m.bufs[q].data != m.bufs[p].data && m.bufs[q].data in m.datas
  {
    var d := m.bufs[p].data;
    assert p in Refs(m.bufs, d);
    if m.bufs[q].data == d {
      assert q in Refs(m.bufs, d);
      Two(p, q, Refs(m.bufs, d));
    }
  }

  /** The untouched rest of the chain. */
  lemma RestKept(m0: Mem, m: Mem, ps: seq<Ptr>, j: nat)
    requires 0 < j < |ps| && List(m0.bufs, ps[0], ps) && Frame(m0, m, Elems(ps[..j]))
    ensures ps[j] in m.bufs && ps[j] in m0.bufs && m.bufs[ps[j]] == m0.bufs[ps[j]] && Window(m, ps[j]) == Window(m0, ps[j])
    ensures ps[j] != ps[0] && ps[j] != NULL
    ensures List(m.bufs, ps[j], ps[j..]) && List(m.bufs, m.bufs[ps[j]].next, ps[j + 1..])
    ensures Bytes(m, ps[j + 1..]) == Bytes(m0, ps[j + 1..])
    ensures ps[j - 1] in m0.bufs && m0.bufs[ps[j - 1]].next == ps[j]
  {
    hide Bytes, Window, Seg, Elems;
    ListDistinct(m0.bufs, ps[0], ps);
    SegAt(m0.bufs, ps[0], ps, NULL, j);
    SegAt(m0.bufs, ps[0], ps, NULL, j - 1);
    ElemsApart(ps, j);
    ElemsIn(ps, j);
    FrameAt(m0, m, Elems(ps[..j]), ps[j]);
    FrameList(m0, m, Elems(ps[..j]), ps[j], ps[j..]);
    FrameList(m0, m, Elems(ps[..j]), m0.bufs[ps[j]].next, ps[j + 1..]);
  }

  lemma ElemsIn(ps: seq<Ptr>, j: nat)
    requires j < |ps|
    ensures forall x :: x in ps[j..] ==> x in Elems(ps[j..])
    ensures forall x :: x in ps[j + 1..] ==> x in ps[j..]
    ensures ps[j] in ps[j..]
  {
    assert ps[j..] == [ps[j]] + ps[j + 1..];
  }

  lemma ElemsApart(ps: seq<Ptr>, i: nat)
    requires Distinct(ps) && i <= |ps|
    ensures Elems(ps[..i]) !! Elems(ps[i..])
  {}

  /** The first step: the head moves to the new buffer, with its own bytes in front. */
  lemma PulledStart(m: Mem, ps: seq<Ptr>, d: Ptr, bytes: seq<byte>, len: nat)
    requires WF(m) && ps != [] && ps[0] in m.bufs && m.bufs[ps[0]].data in m.datas && d !in m.datas && d != NULL
    requires |bytes| == len && m.bufs[ps[0]].length <= len && bytes[..m.bufs[ps[0]].length] == Window(m, ps[0])
    ensures Pulled(m, Rehome(m, ps[0], m.bufs[ps[0]].(data := d, off := 0), bytes), ps, d, 1, len)
  {
    hide Counted, NodesOk, Frame, Bytes, Window;
    RehomeOk(m, ps[0], m.bufs[ps[0]].(data := d, off := 0), bytes);
    BytesOne(m, ps[0]);
    WindowLen(m, ps[0]);
    assert ps[..1] == [ps[0]] && ps[1..1] == [] && Elems(ps[..1]) == {ps[0]};
  }

  /** Copying the bytes of netbuf `j` after those gathered. */
  lemma PulledWrite(m0: Mem, m: Mem, ps: seq<Ptr>, d: Ptr, j: nat, len: nat)
    requires j < |ps| && List(m0.bufs, ps[0], ps) && WF(m0) && Pulled(m0, m, ps, d, j, len)
    requires |Bytes(m0, ps[..j + 1])| <= len
    ensures |Bytes(m0, ps[..j])| + |Window(m, ps[j])| <= len
    ensures var bytes := Put(m.datas[d].bytes, |Bytes(m0, ps[..j])|, Window(m, ps[j]));
            var m1 := m.(datas := m.datas[d := m.datas[d].(bytes := bytes)]);
            && WF(m1) && Frame(m, m1, {ps[0]}) && Frame(m0, m1, Elems(ps[..j]))
            && bytes[..|Bytes(m0, ps[..j + 1])|] == Bytes(m0, ps[..j + 1])
            && ps[j] in m1.bufs && m1.bufs[ps[j]].data in m1.datas && m1.bufs[ps[j]].data != d
  {
    hide Counted, NodesOk, Frame, Bytes, Window, Seg, Elems;
    RestKept(m0, m, ps, j);
    BytesAt(m0, ps, j);
    var bytes := Put(m.datas[d].bytes, |Bytes(m0, ps[..j])|, Window(m, ps[j]));
    WriteOk(m, ps[0], bytes);
    var m1 := Write(m, ps[0], bytes);
    FirstElem(ps, j);
    FrameTrans(m0, m, m1, Elems(ps[..j]), {ps[0]}, Elems(ps[..j]));
    OneRef(m, ps[0], ps[j]);
  }

  lemma FirstElem(ps: seq<Ptr>, j: nat)
    requires 0 < j < |ps|
    ensures ps[0] in Elems(ps[..j]) && Elems(ps[..j + 1]) == Elems(ps[..j]) + {ps[j]}
    ensures Elems(ps[1..j + 1]) == Elems(ps[1..j]) + {ps[j]}
  {
    assert ps[..j][0] == ps[0] && ps[..j + 1] == ps[..j] + [ps[j]] && ps[1..j + 1] == ps[1..j] + [ps[j]];
  }

  /** Copying netbuf `j` whole and freeing it. */
  lemma PulledNext(m0: Mem, m: Mem, ps: seq<Ptr>, d: Ptr, j: nat, len: nat)
    requires j < |ps| && List(m0.bufs, ps[0], ps) && WF(m0) && Pulled(m0, m, ps, d, j, len)
    requires |Bytes(m0, ps[..j + 1])| <= len
    ensures |Bytes(m0, ps[..j])| + |Window(m, ps[j])| <= len
    ensures var bytes := Put(m.datas[d].bytes, |Bytes(m0, ps[..j])|, Window(m, ps[j]));
            var m1 := m.(datas := m.datas[d := m.datas[d].(bytes := bytes)]);
            && WF(m1) && ps[j] in m1.bufs && m1.bufs[ps[j]].data in m1.datas
            && Pulled(m0, Drop(m1, ps[j]), ps, d, j + 1, len)
  {
    hide Counted, NodesOk, Frame, Bytes, Window, Seg, Elems;
    PulledWrite(m0, m, ps, d, j, len);
    RestKept(m0, m, ps, j);
    BytesAt(m0, ps, j);
    var bytes := Put(m.datas[d].bytes, |Bytes(m0, ps[..j])|, Window(m, ps[j]));
    var m1 := m.(datas := m.datas[d := m.datas[d].(bytes := bytes)]);
    DropOk(m1, ps[j]);
    FirstElem(ps, j);
    FrameTrans(m0, m1, Drop(m1, ps[j]), Elems(ps[..j]), {ps[j]}, Elems(ps[..j + 1]));
  }

  /** Copying the first bytes of netbuf `j` that are still wanted. */
  lemma PulledLast(m0: Mem, m: Mem, ps: seq<Ptr>, d: Ptr, j: nat, len: nat)
    requires j < |ps| && List(m0.bufs, ps[0], ps) && WF(m0) && Pulled(m0, m, ps, d, j, len)
    requires |Bytes(m0, ps[..j])| <= len <= |Bytes(m0, ps[..j + 1])|
    ensures |Bytes(m0, ps[..j])| <= len <= |Bytes(m0, ps[..j])| + |Window(m, ps[j])| && len <= |Bytes(m0, ps)|
    ensures var t := len - |Bytes(m0, ps[..j])|;
            var bytes := Put(m.datas[d].bytes, |Bytes(m0, ps[..j])|, Window(m, ps[j])[..t]);
            var m1 := m.(datas := m.datas[d := m.datas[d].(bytes := bytes)]);
            && WF(m1) && Frame(m0, m1, Elems(ps[..j])) && bytes == Bytes(m0, ps)[..len]
  {
    hide Counted, NodesOk, Frame, Bytes, Window, Seg, Elems;
    RestKept(m0, m, ps, j);
    BytesAt(m0, ps, j);
    var t := len - |Bytes(m0, ps[..j])|;
    var bytes := Put(m.datas[d].bytes, |Bytes(m0, ps[..j])|, Window(m, ps[j])[..t]);
    WriteOk(m, ps[0], bytes);
    FirstElem(ps, j);
    FrameTrans(m0, m, Write(m, ps[0], bytes), Elems(ps[..j]), {ps[0]}, Elems(ps[..j]));
  }

  /** The head takes over its new length and the rest of the chain. */
  lemma Gathered(m0: Mem, m: Mem, ps: seq<Ptr>, d: Ptr, len: nat, run: Ptr, rest: seq<Ptr>)
    requires ps != [] && WF(m) && Frame(m0, m, Elems(ps)) && len <= |Bytes(m0, ps)|
    requires ps[0] in m.bufs && m.bufs[ps[0]].data == d && m.bufs[ps[0]].off == 0
    requires d in m.datas && m.datas[d].bytes == Bytes(m0, ps)[..len]
    requires List(m.bufs, run, rest) && Bytes(m, rest) == Bytes(m0, ps)[len..] && ps[0] !in rest
    ensures var m' := Edit(m, ps[0], m.bufs[ps[0]].(next := run, length := len));
            && WF(m') && List(m'.bufs, ps[0], [ps[0]] + rest) && Bytes(m', [ps[0]] + rest) == Bytes(m0, ps)
            && Frame(m0, m', Elems(ps)) && m'.bufs.Keys == m.bufs.Keys && Window(m', ps[0]) == Bytes(m0, ps)[..len]
  {
    hide Counted, NodesOk, Frame, Window, Elems;
    var nb, n := ps[0], m.bufs[ps[0]].(next := run, length := len);
    NonNull(m, nb);
    EditOk(m, nb, n);
    var m' := Edit(m, nb, n);
    SegIn(m.bufs, run, rest, NULL);
    SegSame(m.bufs, m'.bufs, run, rest, NULL);
    FrameBytes(m, m', {nb}, run, rest, NULL);
    BytesConcat(m', [nb], rest);
    BytesOne(m', nb);
    assert ([nb] + rest)[1..] == rest;
    FirstOf(ps);
    FrameTrans(m0, m, m', Elems(ps), {nb}, Elems(ps));
  }

  lemma FirstOf(ps: seq<Ptr>)
    requires ps != []
    ensures ps[0] in Elems(ps)
  {}

  lemma DropOther(m: Mem, p: Ptr, d: Ptr)
    requires p in m.bufs && m.bufs[p].data in m.datas && d in m.datas && d != m.bufs[p].data
    ensures d in Drop(m, p).datas && Drop(m, p).datas[d] == m.datas[d]
  {}

  /** The nodes after the head that are gone, and those that stay. */
  lemma GatherElems(ps: seq<Ptr>, j: nat)
    requires Distinct(ps) && 1 <= j <= |ps|
    ensures Elems(ps[1..j]) == Elems(ps) - Elems([ps[0]] + ps[j..]) && Elems([ps[0]] + ps[j..]) <= Elems(ps)
    ensures ps[0] !in ps[j..]
  {
    assert ps == [ps[0]] + ps[1..j] + ps[j..];
    forall x | x in ps[1..j] ensures x !in [ps[0]] + ps[j..] {
    }
  }

  /** What is left of the chain when the last netbuf gave all its bytes and was freed. */
  lemma RestFreed(m0: Mem, m1: Mem, m: Mem, ps: seq<Ptr>, e: nat, len: nat)
    requires 0 < e < |ps| && List(m0.bufs, ps[0], ps) && Frame(m0, m1, Elems(ps[..e]))
    requires m.bufs == m1.bufs - {ps[e]} && Frame(m1, m, {ps[e]}) && len == |Bytes(m0, ps[..e + 1])|
    ensures ps[e] in m1.bufs && len <= |Bytes(m0, ps)|
    ensures List(m.bufs, m1.bufs[ps[e]].next, ps[e + 1..]) && Bytes(m, ps[e + 1..]) == Bytes(m0, ps)[len..]
    ensures Frame(m0, m, Elems(ps))
  {
    hide Bytes, Window, Seg, Elems, Frame;
    RestKept(m0, m1, ps, e);
    ListDistinct(m0.bufs, ps[0], ps);
    NotLater(ps, e);
    FrameList(m1, m, {ps[e]}, m1.bufs[ps[e]].next, ps[e + 1..]);
    BytesAt(m0, ps, e);
    assert ps == ps[..e + 1] + ps[e + 1..];
    BytesConcat(m0, ps[..e + 1], ps[e + 1..]);
    FrameTrans(m0, m1, m, Elems(ps[..e]), {ps[e]}, Elems(ps));
  }

  lemma NotLater(ps: seq<Ptr>, e: nat)
    requires Distinct(ps) && e < |ps|
    ensures ps[e] !in ps[e + 1..] && Elems(ps[..e]) <= Elems(ps) && ps[e] in Elems(ps)
  {}

  /** What is left of the chain when the last netbuf gave its first `t` bytes. */
  lemma RestCut(m0: Mem, m1: Mem, m: Mem, ps: seq<Ptr>, e: nat, t: nat)
    requires 0 < e < |ps| && List(m0.bufs, ps[0], ps) && Frame(m0, m1, Elems(ps[..e]))
    requires |Bytes(m1, ps[e..])| >= t && Bytes(m, ps[e..]) == Bytes(m1, ps[e..])[t..] && Frame(m1, m, {ps[e]})
    ensures |Bytes(m0, ps[..e])| + t <= |Bytes(m0, ps)| && Bytes(m, ps[e..]) == Bytes(m0, ps)[|Bytes(m0, ps[..e])| + t..]
    ensures Frame(m0, m, Elems(ps))
  {
    hide Bytes, Window, Seg, Elems, Frame;
    RestKept(m0, m1, ps, e);
    BytesAt(m0, ps, e);
    BytesAt(m1, ps, e);
    ListDistinct(m0.bufs, ps[0], ps);
    NotLater(ps, e);
    FrameTrans(m0, m1, m, Elems(ps[..e]), {ps[e]}, Elems(ps));
  }
}
