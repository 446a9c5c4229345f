/**
  The memory that netbufs live in, as a value: netbuf records and reference-counted data buffers by
  address.  A freed address is not in the map any more, so reading it is an error the verifier sees.
 */
module NetbufMem {
  import opened Words

  /** Addresses; 0 is the null pointer. */
  type Ptr = nat

  const NULL: Ptr := 0

  /** A data buffer: the reference counter in its first word and the bytes after it. */
  datatype Data = Data(refs: nat, bytes: seq<byte>)

  /** A netbuf: a window of `length` bytes from `off` on a data buffer. */
  datatype NetBuf = NetBuf(next: Ptr, nextChain: Ptr, data: Ptr, off: nat, length: nat, total: nat)

  datatype Mem = Mem(bufs: map<Ptr, NetBuf>, datas: map<Ptr, Data>)

  /** What the pool answers a call: whether the k-th allocation it asks for, from 0, is served. */
  type Supply = nat -> bool

  // ----- bytes

  ghost predicate InRange(m: Mem, n: NetBuf) {
    n.data in m.datas && n.off + n.length <= |m.datas[n.data].bytes|
  }

  /** The bytes a netbuf shows. */
  ghost function Window(m: Mem, p: Ptr): seq<byte> {
    if p in m.bufs && InRange(m, m.bufs[p])
    then m.datas[m.bufs[p].data].bytes[m.bufs[p].off..m.bufs[p].off + m.bufs[p].length]
    else []
  }

  /** The byte sequence of a list of netbufs. */
  ghost function Bytes(m: Mem, ps: seq<Ptr>): seq<byte> {
    if ps == [] then [] else Window(m, ps[0]) + Bytes(m, ps[1..])
  }

  // ----- reference counts

  ghost function Refs(bufs: map<Ptr, NetBuf>, d: Ptr): set<Ptr> {
    set p | p in bufs && bufs[p].data == d
  }

  ghost predicate NodesOk(m: Mem) {
    forall p :: p in m.bufs ==> p != NULL && InRange(m, m.bufs[p])
  }

  /** Every counter is the number of live netbufs on the buffer, and no buffer is left without one. */
  ghost predicate Counted(m: Mem) {
    forall d :: d in m.datas ==> d != NULL && m.datas[d].refs == |Refs(m.bufs, d)| && m.datas[d].refs > 0
  }

  ghost predicate WF(m: Mem) {
    NodesOk(m) && Counted(m)
  }

  /** No counter is too low, so that no buffer goes while a netbuf is on it; one may be too high. */
  ghost predicate Safe(m: Mem) {
    NodesOk(m) && forall d :: d in m.datas ==> d != NULL && m.datas[d].refs >= |Refs(m.bufs, d)| && m.datas[d].refs > 0
  }

  /** A buffer whose counter is too high: it never goes. */
  ghost predicate Stranded(m: Mem, d: Ptr) {
    d in m.datas && m.datas[d].refs > |Refs(m.bufs, d)|
  }

  lemma SafeIff(m: Mem)
    ensures WF(m) <==> Safe(m) && forall d :: !Stranded(m, d)
  {
    if Safe(m) && forall d :: !Stranded(m, d) {
      forall d | d in m.datas ensures m.datas[d].refs == |Refs(m.bufs, d)| {
        assert !Stranded(m, d);
      }
    }
  }

  lemma RefsAdd(bufs: map<Ptr, NetBuf>, p: Ptr, n: NetBuf, d: Ptr)
    requires p !in bufs
    ensures Refs(bufs[p := n], d) == if n.data == d then Refs(bufs, d) + {p} else Refs(bufs, d)
  {}

  lemma RefsRemove(bufs: map<Ptr, NetBuf>, p: Ptr, d: Ptr)
    requires p in bufs
    ensures Refs(bufs - {p}, d) == if bufs[p].data == d then Refs(bufs, d) - {p} else Refs(bufs, d)
  {}

  lemma RefsKeep(bufs: map<Ptr, NetBuf>, p: Ptr, n: NetBuf, d: Ptr)
    requires p in bufs && n.data == bufs[p].data
    ensures Refs(bufs[p := n], d) == Refs(bufs, d)
  {}

  // ----- lists

  /** `ps` are the netbufs passed on the way from `p` to `q` by `next`. */
  ghost predicate Seg(bufs: map<Ptr, NetBuf>, p: Ptr, ps: seq<Ptr>, q: Ptr)
    decreases |ps|
  {
    if ps == [] then p == q
    else p == ps[0] && p != NULL && p in bufs && Seg(bufs, bufs[p].next, ps[1..], q)
  }

  ghost predicate List(bufs: map<Ptr, NetBuf>, p: Ptr, ps: seq<Ptr>) {
    Seg(bufs, p, ps, NULL)
  }

  ghost predicate Distinct(ps: seq<Ptr>) {
    forall i, j :: 0 <= i < j < |ps| ==> ps[i] != ps[j]
  }

  ghost function Elems(ps: seq<Ptr>): set<Ptr> {
    set p | p in ps
  }

  /** A chain: a list whose head knows the total length. */
  ghost predicate Chain(m: Mem, p: Ptr, ps: seq<Ptr>) {
    List(m.bufs, p, ps) && (ps != [] ==> m.bufs[p].total == |Bytes(m, ps)|)
  }

  lemma {:induction false} SegIn(bufs: map<Ptr, NetBuf>, p: Ptr, ps: seq<Ptr>, q: Ptr)
    requires Seg(bufs, p, ps, q)
    ensures forall x :: x in ps ==> x in bufs && x != NULL
    decreases |ps|
  {
    if ps != [] {
      SegIn(bufs, bufs[p].next, ps[1..], q);
      assert forall x :: x in ps ==> x == p || x in ps[1..];
    }
  }

  lemma {:induction false} SegJoin(bufs: map<Ptr, NetBuf>, p: Ptr, ps: seq<Ptr>, q: Ptr, qs: seq<Ptr>, r: Ptr)
    requires Seg(bufs, p, ps, q) && Seg(bufs, q, qs, r)
    ensures Seg(bufs, p, ps + qs, r)
    decreases |ps|
  {
    if ps == [] {
      assert ps + qs == qs;
    } else {
      SegJoin(bufs, bufs[p].next, ps[1..], q, qs, r);
      assert (ps + qs)[1..] == ps[1..] + qs;
    }
  }

  lemma {:induction false} SegSplit(bufs: map<Ptr, NetBuf>, p: Ptr, ps: seq<Ptr>, q: Ptr, i: nat)
    requires Seg(bufs, p, ps, q) && i <= |ps|
    ensures var x := if i < |ps| then ps[i] else q; Seg(bufs, p, ps[..i], x) && Seg(bufs, x, ps[i..], q)
    decreases |ps|
  {
    if i > 0 {
      SegSplit(bufs, bufs[p].next, ps[1..], q, i - 1);
      assert ps[1..][..i - 1] == ps[..i][1..] && ps[1..][i - 1..] == ps[i..];
    }
  }

  /** A list at one of its nodes. */
  lemma SegAt(bufs: map<Ptr, NetBuf>, p: Ptr, ps: seq<Ptr>, q: Ptr, i: nat)
    requires Seg(bufs, p, ps, q) && i < |ps|
    ensures ps[i] in bufs && ps[i] != NULL
    ensures bufs[ps[i]].next == if i + 1 < |ps| then ps[i + 1] else q
    ensures Seg(bufs, p, ps[..i], ps[i]) && Seg(bufs, ps[i], ps[i..], q)
    ensures Seg(bufs, bufs[ps[i]].next, ps[i + 1..], q)
  {
    SegSplit(bufs, p, ps, q, i);
    assert ps[i..][1..] == ps[i + 1..];
    if i + 1 < |ps| {
      assert ps[i + 1..][0] == ps[i + 1];
    }
  }

  lemma {:induction false} SegUnique(bufs: map<Ptr, NetBuf>, p: Ptr, ps: seq<Ptr>, qs: seq<Ptr>)
    requires List(bufs, p, ps) && List(bufs, p, qs)
    ensures ps == qs
    decreases |ps|
  {
    if ps != [] && qs != [] {
      SegUnique(bufs, bufs[p].next, ps[1..], qs[1..]);
      assert ps == [p] + ps[1..] && qs == [p] + qs[1..];
    }
  }

  /** A list that ends never comes back to a node. */
  lemma ListDistinct(bufs: map<Ptr, NetBuf>, p: Ptr, ps: seq<Ptr>)
    requires List(bufs, p, ps)
    ensures Distinct(ps)
  {
    forall i, j | 0 <= i < j < |ps| ensures ps[i] != ps[j] {
      SegAt(bufs, p, ps, NULL, i);
      SegAt(bufs, p, ps, NULL, j);
      if ps[i] == ps[j] {
        SegUnique(bufs, ps[i], ps[i..], ps[j..]);
      }
    }
  }

  /** Only the `next` links of its nodes matter to a list. */
  lemma {:induction false} SegSame(bufs: map<Ptr, NetBuf>, bufs': map<Ptr, NetBuf>, p: Ptr, ps: seq<Ptr>, q: Ptr)
    requires Seg(bufs, p, ps, q)
    requires forall x :: x in ps ==> x in bufs && x in bufs' && bufs'[x].next == bufs[x].next
    ensures Seg(bufs', p, ps, q)
    decreases |ps|
  {
    if ps != [] {
      SegSame(bufs, bufs', bufs[p].next, ps[1..], q);
    }
  }

  // ----- frames

  /** All the bytes of a netbuf's buffer, in its window or not. */
  ghost function Buffer(m: Mem, p: Ptr): seq<byte> {
    if p in m.bufs && m.bufs[p].data in m.datas then m.datas[m.bufs[p].data].bytes else []
  }

  /** Outside `s`, every live netbuf stays live, unchanged, and shows the same bytes of the same buffer. */
  ghost predicate Frame(m: Mem, m': Mem, s: set<Ptr>) {
    forall p :: p in m.bufs && p !in s ==>
      p in m'.bufs && m'.bufs[p] == m.bufs[p] && Window(m', p) == Window(m, p) && Buffer(m', p) == Buffer(m, p)
  }

  lemma FrameTrans(m0: Mem, m1: Mem, m2: Mem, s: set<Ptr>, t: set<Ptr>, u: set<Ptr>)
    requires Frame(m0, m1, s) && Frame(m1, m2, t)
    requires s <= u && forall p :: p in t && p in m0.bufs ==> p in u
    ensures Frame(m0, m2, u)
  {}

  lemma {:induction false} FrameBytes(m: Mem, m': Mem, s: set<Ptr>, p: Ptr, ps: seq<Ptr>, q: Ptr)
    requires Frame(m, m', s) && Seg(m.bufs, p, ps, q) && forall x :: x in ps ==> x !in s
    ensures Bytes(m', ps) == Bytes(m, ps)
    decreases |ps|
  {
    if ps != [] {
      FrameBytes(m, m', s, m.bufs[p].next, ps[1..], q);
    }
  }

  /** A list with no node in `s` is the same list with the same bytes. */
  lemma FrameList(m: Mem, m': Mem, s: set<Ptr>, p: Ptr, ps: seq<Ptr>)
    requires Frame(m, m', s) && List(m.bufs, p, ps) && forall q :: q in ps ==> q !in s
    ensures List(m'.bufs, p, ps) && Bytes(m', ps) == Bytes(m, ps)
    ensures Chain(m, p, ps) ==> Chain(m', p, ps)
  {
    if ps != [] {
      FrameBytes(m, m', s, p, ps, NULL);
      SegIn(m.bufs, p, ps, NULL);
      SegSame(m.bufs, m'.bufs, p, ps, NULL);
    }
  }

  lemma BytesHead(m: Mem, ps: seq<Ptr>)
    requires ps != []
    ensures Bytes(m, ps) == Window(m, ps[0]) + Bytes(m, ps[1..])
  {}

  lemma TailOfSum<T>(a: seq<T>, b: seq<T>)
    requires a != []
    ensures (a + b)[0] == a[0] && (a + b)[1..] == a[1..] + b
  {}

  lemma AddAssoc<T>(a: seq<T>, b: seq<T>, c: seq<T>)
    ensures (a + b) + c == a + (b + c)
  {}

  lemma {:induction false} BytesConcat(m: Mem, ps: seq<Ptr>, qs: seq<Ptr>)
    ensures Bytes(m, ps + qs) == Bytes(m, ps) + Bytes(m, qs)
    decreases |ps|
  {
    hide Bytes, Window;
    if ps == [] {
      assert ps + qs == qs;
      BytesNil(m);
    } else {
      BytesConcat(m, ps[1..], qs);
      TailOfSum(ps, qs);
      BytesHead(m, ps);
      BytesHead(m, ps + qs);
      AddAssoc(Window(m, ps[0]), Bytes(m, ps[1..]), Bytes(m, qs));
    }
  }

  // ----- the primitive changes

  /** One netbuf less on buffer `d`, which goes with its last one. */
  function Unref(datas: map<Ptr, Data>, d: Ptr): map<Ptr, Data>
    requires d in datas
  {
    if datas[d].refs <= 1 then datas - {d} else datas[d := datas[d].(refs := datas[d].refs - 1)]
  }

  function Drop(m: Mem, p: Ptr): Mem
    requires p in m.bufs && m.bufs[p].data in m.datas
  {
    Mem(m.bufs - {p}, Unref(m.datas, m.bufs[p].data))
  }

  lemma DropCounters(m: Mem, p: Ptr)
    requires Safe(m) && p in m.bufs && m.bufs[p].data in m.datas
    ensures forall e :: e in Drop(m, p).datas ==>
              e != NULL && Drop(m, p).datas[e].refs >= |Refs(Drop(m, p).bufs, e)| && Drop(m, p).datas[e].refs > 0
    ensures forall e :: Stranded(Drop(m, p), e) <==> Stranded(m, e)
  {
    hide NodesOk, Refs;
    var m' := Drop(m, p);
    forall e
      ensures e in m'.datas ==> e != NULL && m'.datas[e].refs >= |Refs(m'.bufs, e)| && m'.datas[e].refs > 0
      ensures Stranded(m', e) <==> Stranded(m, e)
    {
      DropRefs(m.bufs, p, e);
    }
  }

  lemma DropRefs(bufs: map<Ptr, NetBuf>, p: Ptr, e: Ptr)
    requires p in bufs
    ensures |Refs(bufs - {p}, e)| == |Refs(bufs, e)| - if bufs[p].data == e then 1 else 0
  {
    RefsRemove(bufs, p, e);
    assert bufs[p].data == e ==> p in Refs(bufs, e);
  }

  /** Unchanged records on unchanged buffers. */
  lemma FrameFrom(m: Mem, m': Mem, s: set<Ptr>)
    requires forall q :: q in m.bufs && q !in s ==>
               && q in m'.bufs && m'.bufs[q] == m.bufs[q] && m.bufs[q].data in m.datas && m.bufs[q].data in m'.datas
               && m'.datas[m.bufs[q].data].bytes == m.datas[m.bufs[q].data].bytes
    ensures Frame(m, m', s)
  {}

  /** Giving up a netbuf and its reference. */
  lemma DropSafe(m: Mem, p: Ptr)
    requires Safe(m) && p in m.bufs && m.bufs[p].data in m.datas
    ensures Safe(Drop(m, p)) && Frame(m, Drop(m, p), {p}) && Drop(m, p).bufs.Keys == m.bufs.Keys - {p}
    ensures forall e :: Stranded(Drop(m, p), e) <==> Stranded(m, e)
  {
    hide Frame;
    var d, m' := m.bufs[p].data, Drop(m, p);
    DropCounters(m, p);
    forall q | q in m'.bufs
      ensures q != NULL && m.bufs[q].data in m'.datas && m'.datas[m.bufs[q].data].bytes == m.datas[m.bufs[q].data].bytes
    {
      if m.bufs[q].data == d {
        Two(p, q, Refs(m.bufs, d));
      }
    }
    FrameFrom(m, m', {p});
  }

  lemma DropOk(m: Mem, p: Ptr)
    requires WF(m) && p in m.bufs && m.bufs[p].data in m.datas
    ensures WF(Drop(m, p)) && Frame(m, Drop(m, p), {p})
    ensures Drop(m, p).bufs.Keys == m.bufs.Keys - {p}
  {
    hide WF, Safe, Stranded, Frame, Drop;
    SafeIff(m);
    DropSafe(m, p);
    SafeIff(Drop(m, p));
  }

  lemma Two(p: Ptr, q: Ptr, s: set<Ptr>)
    requires p != q && p in s && q in s
    ensures |s| >= 2
  {
    assert |s - {p}| >= 1 by {
      assert q in s - {p};
    }
  }

  /** One more netbuf on a live buffer. */
  function Share(m: Mem, p: Ptr, n: NetBuf): Mem
    requires n.data in m.datas
  {
    Mem(m.bufs[p := n], m.datas[n.data := m.datas[n.data].(refs := m.datas[n.data].refs + 1)])
  }

  lemma ShareCounted(m: Mem, p: Ptr, n: NetBuf)
    requires Counted(m) && p !in m.bufs && n.data in m.datas
    ensures Counted(Share(m, p, n))
  {
    var m' := Share(m, p, n);
    forall e | e in m'.datas ensures e != NULL && m'.datas[e].refs == |Refs(m'.bufs, e)| && m'.datas[e].refs > 0 {
      RefsAdd(m.bufs, p, n, e);
      assert p !in Refs(m.bufs, e);
    }
  }

  lemma ShareOk(m: Mem, p: Ptr, n: NetBuf)
    requires WF(m) && p !in m.bufs && p != NULL && InRange(m, n)
    ensures WF(Share(m, p, n)) && Frame(m, Share(m, p, n), {})
    ensures Share(m, p, n).bufs.Keys == m.bufs.Keys + {p}
    ensures Window(Share(m, p, n), p) == m.datas[n.data].bytes[n.off..n.off + n.length]
  {
    hide Counted;
    ShareCounted(m, p, n);
  }

  /** A netbuf with a buffer of its own. */
  function Add(m: Mem, p: Ptr, n: NetBuf, bytes: seq<byte>): Mem {
    Mem(m.bufs[p := n], m.datas[n.data := Data(1, bytes)])
  }

  lemma NoRefs(m: Mem, d: Ptr)
    requires NodesOk(m) && d !in m.datas
    ensures Refs(m.bufs, d) == {}
  {}

  lemma AddCounted(m: Mem, p: Ptr, n: NetBuf, bytes: seq<byte>)
    requires Counted(m) && NodesOk(m) && p !in m.bufs && n.data !in m.datas && n.data != NULL
    ensures Counted(Add(m, p, n, bytes))
  {
    var m' := Add(m, p, n, bytes);
    NoRefs(m, n.data);
    forall e | e in m'.datas ensures e != NULL && m'.datas[e].refs == |Refs(m'.bufs, e)| && m'.datas[e].refs > 0 {
      RefsAdd(m.bufs, p, n, e);
    }
  }

  lemma AddOk(m: Mem, p: Ptr, n: NetBuf, bytes: seq<byte>)
    requires WF(m) && p !in m.bufs && p != NULL && n.data !in m.datas && n.data != NULL
    requires n.off + n.length <= |bytes|
    ensures WF(Add(m, p, n, bytes)) && Frame(m, Add(m, p, n, bytes), {})
    ensures Add(m, p, n, bytes).bufs.Keys == m.bufs.Keys + {p}
    ensures Window(Add(m, p, n, bytes), p) == bytes[n.off..n.off + n.length]
  {
    hide Counted;
    AddCounted(m, p, n, bytes);
  }

  /** Changing a netbuf's links and window but not its buffer. */
  function Edit(m: Mem, p: Ptr, n: NetBuf): Mem {
    m.(bufs := m.bufs[p := n])
  }

  lemma EditCounted(m: Mem, p: Ptr, n: NetBuf)
    requires Counted(m) && p in m.bufs && n.data == m.bufs[p].data
    ensures Counted(Edit(m, p, n))
  {
    forall e | e in m.datas ensures m.datas[e].refs == |Refs(Edit(m, p, n).bufs, e)| {
      RefsKeep(m.bufs, p, n, e);
    }
  }

  lemma EditOk(m: Mem, p: Ptr, n: NetBuf)
    requires WF(m) && p in m.bufs && n.data == m.bufs[p].data && InRange(m, n)
    ensures WF(Edit(m, p, n)) && Frame(m, Edit(m, p, n), {p})
    ensures Edit(m, p, n).bufs.Keys == m.bufs.Keys
    ensures Window(Edit(m, p, n), p) == m.datas[n.data].bytes[n.off..n.off + n.length]
  {
    hide Counted, Frame;
    EditCounted(m, p, n);
    FrameFrom(m, Edit(m, p, n), {p});
  }

  /** Moving a netbuf to a new buffer of its own. */
  function Rehome(m: Mem, p: Ptr, n: NetBuf, bytes: seq<byte>): Mem
    requires p in m.bufs && m.bufs[p].data in m.datas
  {
    Mem(m.bufs[p := n], Unref(m.datas, m.bufs[p].data)[n.data := Data(1, bytes)])
  }

  lemma RehomeOk(m: Mem, p: Ptr, n: NetBuf, bytes: seq<byte>)
    requires WF(m) && p in m.bufs && m.bufs[p].data in m.datas
    requires n.data !in m.datas && n.data != NULL && n.off + n.length <= |bytes|
    ensures WF(Rehome(m, p, n, bytes)) && Frame(m, Rehome(m, p, n, bytes), {p})
    ensures Rehome(m, p, n, bytes).bufs.Keys == m.bufs.Keys
    ensures Window(Rehome(m, p, n, bytes), p) == bytes[n.off..n.off + n.length]
  {
    hide Counted, NodesOk, Frame, InRange, Window;
    var mid := Drop(m, p);
    DropOk(m, p);
    DropDatas(m, p);
    NonNull(m, p);
    AddOk(mid, p, n, bytes);
    assert m.bufs[p := n] == mid.bufs[p := n];
    FrameThrough(m, mid, Add(mid, p, n, bytes), p);
  }

  lemma DropDatas(m: Mem, p: Ptr)
    requires p in m.bufs && m.bufs[p].data in m.datas
    ensures Drop(m, p).datas.Keys <= m.datas.Keys
  {}

  lemma NonNull(m: Mem, p: Ptr)
    requires WF(m) && p in m.bufs
    ensures p != NULL && InRange(m, m.bufs[p])
  {}

  lemma FrameThrough(m0: Mem, m1: Mem, m2: Mem, p: Ptr)
    requires Frame(m0, m1, {p}) && Frame(m1, m2, {}) 
    ensures Frame(m0, m2, {p})
  {}

  /** Writing the buffer of a netbuf that has it to itself. */
  function Write(m: Mem, p: Ptr, bytes: seq<byte>): Mem
    requires p in m.bufs && m.bufs[p].data in m.datas
  {
    m.(datas := m.datas[m.bufs[p].data := m.datas[m.bufs[p].data].(bytes := bytes)])
  }

  lemma WriteOk(m: Mem, p: Ptr, bytes: seq<byte>)
    requires WF(m) && p in m.bufs && m.bufs[p].data in m.datas
    requires m.datas[m.bufs[p].data].refs == 1 && |bytes| == |m.datas[m.bufs[p].data].bytes|
    ensures WF(Write(m, p, bytes)) && Frame(m, Write(m, p, bytes), {p})
    ensures Window(Write(m, p, bytes), p) == bytes[m.bufs[p].off..m.bufs[p].off + m.bufs[p].length]
  {
    hide Frame;
    var d := m.bufs[p].data;
    forall q | q in m.bufs && q != p ensures m.bufs[q].data != d {
      if m.bufs[q].data == d {
        assert p in Refs(m.bufs, d) && q in Refs(m.bufs, d);
        Two(p, q, Refs(m.bufs, d));
      }
    }
    FrameFrom(m, Write(m, p, bytes), {p});
  }

  // ----- bytes by position

  lemma BytesAt(m: Mem, ps: seq<Ptr>, i: nat)
    requires i < |ps|
    ensures Bytes(m, ps[..i + 1]) == Bytes(m, ps[..i]) + Window(m, ps[i])
    ensures Bytes(m, ps[i..]) == Window(m, ps[i]) + Bytes(m, ps[i + 1..])
    ensures Bytes(m, ps) == Bytes(m, ps[..i]) + Bytes(m, ps[i..])
  {
    assert ps[..i + 1] == ps[..i] + [ps[i]] && ps[i..] == [ps[i]] + ps[i + 1..] && ps == ps[..i] + ps[i..];
    BytesConcat(m, ps[..i], [ps[i]]);
    BytesConcat(m, ps[..i], ps[i..]);
    BytesConcat(m, [ps[i]], ps[i + 1..]);
    BytesOne(m, ps[i]);
  }

  lemma BytesOne(m: Mem, p: Ptr)
    ensures Bytes(m, [p]) == Window(m, p)
  {
    assert Bytes(m, [p]) == Window(m, p) + Bytes(m, []);
  }

  lemma WindowLen(m: Mem, p: Ptr)
    requires WF(m) && p in m.bufs
    ensures |Window(m, p)| == m.bufs[p].length && m.bufs[p].data in m.datas
    ensures InRange(m, m.bufs[p]) && p != NULL && m.datas[m.bufs[p].data].refs > 0
  {}

  /** A cursor into a chain: byte `at` of node `i`, which is at `tmp`, is byte `k` of the chain. */
  ghost predicate At(m: Mem, ps: seq<Ptr>, tmp: Ptr, at: nat, i: nat, k: nat) {
    && i < |ps| && tmp == ps[i] && tmp in m.bufs && at <= m.bufs[tmp].length
    && List(m.bufs, tmp, ps[i..])
    && |Bytes(m, ps[..i])| + at == k
  }

  lemma SliceGrow<T>(s: seq<T>, a: nat, b: nat, c: nat)
    requires a <= b <= c <= |s|
    ensures s[a..b] + s[b..c] == s[a..c]
  {}

  lemma SliceMid<T>(a: seq<T>, b: seq<T>, c: seq<T>, k: nat, n: nat)
    requires k + n <= |b|
    ensures (a + (b + c))[|a| + k..|a| + k + n] == b[k..k + n]
  {
    var s := a + (b + c);
    var u, v := s[|a| + k..|a| + k + n], b[k..k + n];
    forall j | 0 <= j < n ensures u[j] == v[j] {
      assert u[j] == s[|a| + k + j] && v[j] == b[k + j];
    }
  }

  /** The bytes at the cursor are in its netbuf's buffer. */
  lemma AtSlice(m: Mem, ps: seq<Ptr>, tmp: Ptr, at: nat, i: nat, k: nat, cur: nat)
    requires WF(m) && At(m, ps, tmp, at, i, k) && at + cur <= m.bufs[tmp].length
    ensures var n := m.bufs[tmp];
            && InRange(m, n) && k + cur <= |Bytes(m, ps)|
            && m.datas[n.data].bytes[n.off + at..n.off + at + cur] == Bytes(m, ps)[k..k + cur]
  {
    hide WF, Bytes, List, Window;
    BytesAt(m, ps, i);
    WindowLen(m, ps[i]);
    WindowSlice(m, ps[i]);
    SliceMid(Bytes(m, ps[..i]), Window(m, ps[i]), Bytes(m, ps[i + 1..]), at, cur);
    var n := m.bufs[tmp];
    SliceOfSlice(m.datas[n.data].bytes, n.off, n.length, at, cur);
  }

  lemma SliceOfSlice<T>(s: seq<T>, a: nat, n: nat, k: nat, t: nat)
    requires a + n <= |s| && k + t <= n
    ensures s[a..a + n][k..k + t] == s[a + k..a + k + t]
  {
    var u, v, w := s[a..a + n], s[a..a + n][k..k + t], s[a + k..a + k + t];
    forall j | 0 <= j < t ensures v[j] == w[j] {
      assert v[j] == u[k + j] && w[j] == s[a + k + j];
    }
  }

  /** On to the next netbuf while there are bytes left. */
  lemma AtNext(m: Mem, ps: seq<Ptr>, tmp: Ptr, at: nat, i: nat, k: nat, k': nat)
    requires WF(m) && At(m, ps, tmp, at, i, k) && k' == k + m.bufs[tmp].length - at < |Bytes(m, ps)|
    ensures At(m, ps, m.bufs[tmp].next, 0, i + 1, k')
  {
    hide WF, Bytes;
    SegAt(m.bufs, tmp, ps[i..], NULL, 0);
    assert ps[i..][1..] == ps[i + 1..];
    WindowLen(m, tmp);
    BytesAt(m, ps, i);
    assert ps[..|ps|] == ps;
    SegAt(m.bufs, tmp, ps[i..], NULL, 1);
  }

  // ----- links and shared windows

  lemma FrameSeg(m: Mem, m': Mem, s: set<Ptr>, p: Ptr, ps: seq<Ptr>, q: Ptr)
    requires Frame(m, m', s) && Seg(m.bufs, p, ps, q) && forall x :: x in ps ==> x !in s
    ensures Seg(m'.bufs, p, ps, q) && Bytes(m', ps) == Bytes(m, ps)
  {
    FrameBytes(m, m', s, p, ps, q);
    SegIn(m.bufs, p, ps, q);
    SegSame(m.bufs, m'.bufs, p, ps, q);
  }

  lemma WindowSlice(m: Mem, p: Ptr)
    requires WF(m) && p in m.bufs
    ensures m.bufs[p].data in m.datas && InRange(m, m.bufs[p])
    ensures Window(m, p) == m.datas[m.bufs[p].data].bytes[m.bufs[p].off..m.bufs[p].off + m.bufs[p].length]
  {}

  lemma FrameSelf(m: Mem)
    ensures Frame(m, m, {}) && Elems([]) == {}
  {}

  lemma FrameMore(m: Mem, s: set<Ptr>)
    ensures Frame(m, m, s)
  {}

  lemma FrameWider(m: Mem, m': Mem, s: set<Ptr>, t: set<Ptr>)
    requires Frame(m, m', s) && s <= t
    ensures Frame(m, m', t)
  {}

  /** The same netbuf apart from its links and total length. */
  ghost predicate SameWindow(n: NetBuf, n': NetBuf) {
    n'.data == n.data && n'.off == n.off && n'.length == n.length
  }

  /** Every netbuf of `m` shows the same bytes in `m'`. */
  ghost predicate Shows(m: Mem, m': Mem) {
    forall p :: p in m.bufs ==> p in m'.bufs && Window(m', p) == Window(m, p)
  }

  /** Besides, every netbuf keeps its window and its place among the chains of a queue, and no buffer changes. */
  ghost predicate Relinked(m: Mem, m': Mem) {
    && Shows(m, m') && m'.datas == m.datas
    && forall p :: p in m.bufs ==> m'.bufs[p].nextChain == m.bufs[p].nextChain && SameWindow(m.bufs[p], m'.bufs[p])
  }

  lemma {:induction false} ShowsBytes(m: Mem, m': Mem, ps: seq<Ptr>)
    requires Shows(m, m') && forall p :: p in ps ==> p in m.bufs
    ensures Bytes(m', ps) == Bytes(m, ps)
  {
    if ps != [] {
      ShowsBytes(m, m', ps[1..]);
    }
  }

  /** Relinking a netbuf changes no bytes. */
  lemma LinkOk(m: Mem, p: Ptr, n: NetBuf)
    requires WF(m) && p in m.bufs && SameWindow(m.bufs[p], n)
    ensures WF(Edit(m, p, n)) && Frame(m, Edit(m, p, n), {p}) && Shows(m, Edit(m, p, n))
    ensures Edit(m, p, n).bufs.Keys == m.bufs.Keys
  {
    hide Counted, Frame;
    EditCounted(m, p, n);
    LinkFrame(m, p, n);
  }

  lemma LinkFrame(m: Mem, p: Ptr, n: NetBuf)
    requires p in m.bufs
    ensures Frame(m, Edit(m, p, n), {p})
  {}

  /** A netbuf without the first bytes of its window. */
  function Shrunk(n: NetBuf, len: nat): NetBuf
    requires len <= n.length && len <= n.total
  {
    n.(off := n.off + len, length := n.length - len, total := n.total - len)
  }

  /** A new netbuf on part of the window of a live one. */
  function Part(n: NetBuf, at: nat, cur: nat, total: nat): NetBuf {
    NetBuf(NULL, NULL, n.data, n.off + at, cur, total)
  }

  lemma PartOk(m: Mem, tmp: Ptr, at: nat, cur: nat, total: nat, x: Ptr)
    requires WF(m) && tmp in m.bufs && at + cur <= m.bufs[tmp].length && x !in m.bufs && x != NULL
    ensures m.bufs[tmp].data in m.datas
    ensures var m' := Share(m, x, Part(m.bufs[tmp], at, cur, total));
            && WF(m') && Frame(m, m', {}) && m'.bufs.Keys == m.bufs.Keys + {x}
            && at + cur <= |Window(m, tmp)| && Window(m', x) == Window(m, tmp)[at..at + cur]
  {
    hide WF, Frame, Window, Share;
    WindowLen(m, tmp);
    WindowSlice(m, tmp);
    ShareOk(m, x, Part(m.bufs[tmp], at, cur, total));
    var n := m.bufs[tmp];
    SliceOfSlice(m.datas[n.data].bytes, n.off, n.length, at, cur);
  }

  lemma NotIn(ps: seq<Ptr>, qs: seq<Ptr>)
    requires ps != [] && Elems(ps) !! Elems(qs)
    ensures ps[|ps| - 1] !in qs
  {
    assert forall x :: x in qs ==> x in Elems(qs);
    assert ps[|ps| - 1] in Elems(ps);
  }

  lemma Elsewhere(ps: seq<Ptr>, i: nat)
    requires Distinct(ps) && i < |ps|
    ensures ps[i] !in ps[..i] && ps[i] !in ps[i + 1..]
  {}

  /** Hanging the list `qs` on the last of the netbufs `ps`. */
  lemma JoinSeg(m: Mem, p: Ptr, ps: seq<Ptr>, x: Ptr, q: Ptr, qs: seq<Ptr>, n: NetBuf)
    requires WF(m) && Seg(m.bufs, p, ps, x) && Distinct(ps) && List(m.bufs, q, qs) && ps != []
    requires Elems(ps) !! Elems(qs)
    requires ps[|ps| - 1] in m.bufs && SameWindow(m.bufs[ps[|ps| - 1]], n) && n.next == q
    ensures var m' := Edit(m, ps[|ps| - 1], n);
            && WF(m') && List(m'.bufs, p, ps + qs) && Bytes(m', ps + qs) == Bytes(m, ps) + Bytes(m, qs)
            && Frame(m, m', {ps[|ps| - 1]}) && Shows(m, m') && m'.bufs.Keys == m.bufs.Keys
  {
    hide Counted, NodesOk, Frame, Shows, Bytes, Distinct, Elems;
    var k := |ps| - 1;
    var l, m' := ps[k], Edit(m, ps[k], n);
    LinkOk(m, l, n);
    Elsewhere(ps, k);
    NotIn(ps, qs);
    SegAt(m.bufs, p, ps, x, k);
    SegIn(m.bufs, p, ps, x);
    SegIn(m.bufs, q, qs, NULL);
    SegSame(m.bufs, m'.bufs, p, ps[..k], l);
    SegSame(m.bufs, m'.bufs, q, qs, NULL);
    assert ([l] + qs)[1..] == qs;
    assert Seg(m'.bufs, l, [l] + qs, NULL);
    SegJoin(m'.bufs, p, ps[..k], l, [l] + qs, NULL);
    assert ps[..k] + ([l] + qs) == ps + qs;
    ShowsBytes(m, m', ps);
    ShowsBytes(m, m', qs);
    BytesConcat(m', ps, qs);
  }

  /** Hanging a netbuf that ends the list `qs` on the last netbuf of a list. */
  lemma JoinOk(m: Mem, p: Ptr, ps: seq<Ptr>, q: Ptr, qs: seq<Ptr>, n: NetBuf)
    requires WF(m) && List(m.bufs, p, ps) && List(m.bufs, q, qs) && ps != []
    requires Elems(ps) !! Elems(qs)
    requires ps[|ps| - 1] in m.bufs && SameWindow(m.bufs[ps[|ps| - 1]], n) && n.next == q
    ensures var m' := Edit(m, ps[|ps| - 1], n);
            && WF(m') && List(m'.bufs, p, ps + qs) && Bytes(m', ps + qs) == Bytes(m, ps) + Bytes(m, qs)
            && Frame(m, m', {ps[|ps| - 1]}) && Shows(m, m') && m'.bufs.Keys == m.bufs.Keys
  {
    hide Counted, NodesOk, Frame, Shows, Bytes, Seg, Distinct;
    ListDistinct(m.bufs, p, ps);
    JoinSeg(m, p, ps, NULL, q, qs, n);
  }

  // ----- copies under construction

  /**
    `rs` is a list of new netbufs from `head` that show bytes `lo..hi` of chain `ps`, in a memory that
    otherwise is `m0`.
   */
  ghost predicate Copied(m0: Mem, m: Mem, ps: seq<Ptr>, head: Ptr, rs: seq<Ptr>, lo: nat, hi: nat) {
    && WF(m) && Frame(m0, m, {})
    && rs != [] && List(m.bufs, head, rs)
    && (forall x :: x in rs ==> x !in m0.bufs) && m.bufs.Keys == m0.bufs.Keys + Elems(rs)
    && lo <= hi <= |Bytes(m0, ps)| && Bytes(m, rs) == Bytes(m0, ps)[lo..hi]
  }

  /** Netbuf `i` holds byte `k` of the chain. */
  ghost predicate Holds(m: Mem, ps: seq<Ptr>, i: nat, k: nat) {
    i < |ps| && |Bytes(m, ps[..i])| <= k < |Bytes(m, ps[..i + 1])|
  }

  /** How many netbufs, from netbuf `i` on, it takes to come to byte `hi` of the chain. */
  ghost function Reach(m: Mem, ps: seq<Ptr>, i: nat, hi: nat): nat
    decreases |ps| - i
  {
    if i + 1 >= |ps| || hi <= |Bytes(m, ps[..i + 1])| then 1 else 1 + Reach(m, ps, i + 1, hi)
  }

  ghost predicate Served(supply: Supply, n: nat) {
    forall k: nat :: k < n ==> supply(k)
  }

  lemma ServedOne(supply: Supply, n: nat)
    requires Served(supply, n)
    ensures Served(supply, n + 1) <==> supply(n)
  {}

  lemma ReachStep(m: Mem, ps: seq<Ptr>, i: nat, hi: nat)
    requires i < |ps| && |Bytes(m, ps[..i + 1])| < hi <= |Bytes(m, ps)|
    ensures i + 1 < |ps| && Reach(m, ps, i, hi) == 1 + Reach(m, ps, i + 1, hi) > 1
  {
    assert ps[..|ps|] == ps;
  }

  /** Only one netbuf holds a byte. */
  lemma HoldsOne(m: Mem, ps: seq<Ptr>, i: nat, j: nat, k: nat)
    requires Holds(m, ps, i, k) && Holds(m, ps, j, k)
    ensures i == j
  {
    if i < j {
      PrefixMono(m, ps, i + 1, j);
    } else if j < i {
      PrefixMono(m, ps, j + 1, i);
    }
  }

  lemma PrefixMono(m: Mem, ps: seq<Ptr>, i: nat, j: nat)
    requires i <= j <= |ps|
    ensures |Bytes(m, ps[..i])| <= |Bytes(m, ps[..j])|
  {
    assert ps[..j] == ps[..i] + ps[i..j];
    BytesConcat(m, ps[..i], ps[i..j]);
  }

  /**
    Netbuf `k` of `rs` is on the buffer of netbuf `i + k` of `ps`; no buffer was made, dropped or written.
   */
  ghost predicate Aliased(m0: Mem, m: Mem, ps: seq<Ptr>, rs: seq<Ptr>, i: nat) {
    && m.datas.Keys == m0.datas.Keys && (forall d :: d in m.datas ==> m.datas[d].bytes == m0.datas[d].bytes)
    && i + |rs| <= |ps|
    && forall k: nat :: k < |rs| ==> SameBuffer(m0, ps[i + k], m, rs[k])
  }

  ghost predicate SameBuffer(m0: Mem, p: Ptr, m: Mem, q: Ptr) {
    p in m0.bufs && q in m.bufs && m.bufs[q].data == m0.bufs[p].data
  }

  /** A netbuf that is alone on its buffer. */
  ghost predicate Single(m: Mem, p: Ptr) {
    p in m.bufs && m.bufs[p].data in m.datas && m.datas[m.bufs[p].data].refs == 1
  }

  /** Two netbufs on one buffer are both not alone there. */
  lemma Sharers(m: Mem, p: Ptr, q: Ptr)
    requires WF(m) && SameBuffer(m, p, m, q) && p != q
    ensures !Single(m, p) && !Single(m, q)
  {
    var s := Refs(m.bufs, m.bufs[p].data);
    assert p in s && q in s;
    SubsetSize({p, q}, s);
  }

  lemma AliasedFirst(m: Mem, ps: seq<Ptr>, tmp: Ptr, i: nat, x: Ptr, n: NetBuf)
    requires i < |ps| && tmp == ps[i] && tmp in m.bufs && n.data == m.bufs[tmp].data && n.data in m.datas && x !in m.bufs
    ensures Aliased(m, Share(m, x, n), ps, [x], i)
  {}

  lemma AliasedNext(m0: Mem, m: Mem, ps: seq<Ptr>, rs: seq<Ptr>, i: nat, x: Ptr, n: NetBuf)
    requires Aliased(m0, m, ps, rs, i) && rs != [] && i + |rs| < |ps| && ps[i + |rs|] in m0.bufs
    requires n.data == m0.bufs[ps[i + |rs|]].data && n.data in m.datas && x !in m.bufs
    ensures rs[|rs| - 1] in m.bufs && rs[|rs| - 1] != x
    ensures var m1 := Share(m, x, n);
            Aliased(m0, Edit(m1, rs[|rs| - 1], m1.bufs[rs[|rs| - 1]].(next := x)), ps, rs + [x], i)
  {
    var l := |rs| - 1;
    assert SameBuffer(m0, ps[i + l], m, rs[l]);
    var m1 := Share(m, x, n);
    var m2 := Edit(m1, rs[l], m1.bufs[rs[l]].(next := x));
    forall k: nat | k < |rs + [x]| ensures SameBuffer(m0, ps[i + k], m2, (rs + [x])[k]) {
      if k < |rs| {
        assert SameBuffer(m0, ps[i + k], m, rs[k]);
      }
    }
  }

  /** The first netbuf of a copy. */
  lemma CopiedFirst(m: Mem, ps: seq<Ptr>, tmp: Ptr, at: nat, i: nat, k: nat, cur: nat, total: nat, x: Ptr)
    requires WF(m) && At(m, ps, tmp, at, i, k) && at + cur <= m.bufs[tmp].length
    requires x !in m.bufs && x != NULL
    ensures m.bufs[tmp].data in m.datas && k + cur <= |Bytes(m, ps)|
    ensures Copied(m, Share(m, x, Part(m.bufs[tmp], at, cur, total)), ps, x, [x], k, k + cur)
  {
    hide Counted, NodesOk, Frame, At, Bytes;
    AtUse(m, ps, tmp, at, i, k);
    PartOk(m, tmp, at, cur, total, x);
    AtWindow(m, ps, tmp, at, i, k, cur);
    BytesOne(Share(m, x, Part(m.bufs[tmp], at, cur, total)), x);
    ListOne(Share(m, x, Part(m.bufs[tmp], at, cur, total)).bufs, x);
  }

  lemma AtUse(m: Mem, ps: seq<Ptr>, tmp: Ptr, at: nat, i: nat, k: nat)
    requires At(m, ps, tmp, at, i, k)
    ensures tmp in m.bufs && i < |ps| && tmp == ps[i] && at <= m.bufs[tmp].length
    ensures |Bytes(m, ps[..i])| + at == k
  {}

  lemma AtWindow(m: Mem, ps: seq<Ptr>, tmp: Ptr, at: nat, i: nat, k: nat, cur: nat)
    requires WF(m) && At(m, ps, tmp, at, i, k) && at + cur <= m.bufs[tmp].length
    ensures |Window(m, tmp)| == m.bufs[tmp].length && k + cur <= |Bytes(m, ps)|
    ensures Window(m, tmp)[at..at + cur] == Bytes(m, ps)[k..k + cur]
  {
    hide Counted, Bytes, List;
    BytesAt(m, ps, i);
    WindowLen(m, tmp);
    SliceMid(Bytes(m, ps[..i]), Window(m, tmp), Bytes(m, ps[i + 1..]), at, cur);
  }

  /** One more netbuf on a copy. */
  lemma CopiedNext(m0: Mem, m: Mem, ps: seq<Ptr>, tmp: Ptr, i: nat, lo: nat, hi: nat, cur: nat, head: Ptr, rs: seq<Ptr>, x: Ptr)
    requires WF(m0) && At(m0, ps, tmp, 0, i, hi) && cur <= m0.bufs[tmp].length
    requires Copied(m0, m, ps, head, rs, lo, hi)
    requires x !in m.bufs && x != NULL
    ensures tmp in m.bufs && m.bufs[tmp] == m0.bufs[tmp] && m.bufs[tmp].data in m.datas && hi + cur <= |Bytes(m0, ps)|
    ensures rs[|rs| - 1] in m.bufs && rs[|rs| - 1] != x
    ensures var m1 := Share(m, x, Part(m.bufs[tmp], 0, cur, 0));
            Copied(m0, Edit(m1, rs[|rs| - 1], m1.bufs[rs[|rs| - 1]].(next := x)), ps, head, rs + [x], lo, hi + cur)
  {
    hide Counted, NodesOk, Frame, At, Bytes, Shows;
    AtUse(m0, ps, tmp, 0, i, hi);
    FrameAt(m0, m, {}, tmp);
    PartOk(m, tmp, 0, cur, 0, x);
    AtWindow(m0, ps, tmp, 0, i, hi, cur);
    var m1 := Share(m, x, Part(m.bufs[tmp], 0, cur, 0));
    SegIn(m.bufs, head, rs, NULL);
    FrameList(m, m1, {}, head, rs);
    BytesOne(m1, x);
    ListOne(m1.bufs, x);
    var l := rs[|rs| - 1];
    JoinOk(m1, head, rs, x, [x], m1.bufs[l].(next := x));
    SliceGrow(Bytes(m0, ps), lo, hi, hi + cur);
    FrameTrans(m0, m, m1, {}, {}, {});
    FrameTrans(m0, m1, Edit(m1, l, m1.bufs[l].(next := x)), {}, {l}, {});
  }

  lemma FrameAt(m: Mem, m': Mem, s: set<Ptr>, p: Ptr)
    requires Frame(m, m', s) && p in m.bufs && p !in s
    ensures p in m'.bufs && m'.bufs[p] == m.bufs[p] && Window(m', p) == Window(m, p)
  {}

  lemma ListOne(bufs: map<Ptr, NetBuf>, x: Ptr)
    requires x in bufs && x != NULL && bufs[x].next == NULL
    ensures List(bufs, x, [x])
  {}

  /** Giving back a reference just taken. */
  lemma ShareDrop(m: Mem, x: Ptr, n: NetBuf)
    requires WF(m) && x !in m.bufs && n.data in m.datas
    ensures Drop(Share(m, x, n), x) == m
  {
    assert m.bufs[x := n] - {x} == m.bufs;
  }

  /** Netbufs that are only forgotten leave their buffers' counters too high, and no others. */
  lemma Forgotten(m: Mem, m': Mem, s: set<Ptr>)
    requires WF(m) && s <= m.bufs.Keys && m'.bufs == m.bufs - s && m'.datas == m.datas
    ensures Safe(m') && Frame(m, m', s)
    ensures forall d :: Stranded(m', d) <==> exists p :: p in s && OnBuffer(m, p, d)
  {
    hide Frame, Refs;
    forall d | d in m.datas
      ensures |Refs(m'.bufs, d)| <= |Refs(m.bufs, d)|
      ensures |Refs(m'.bufs, d)| < |Refs(m.bufs, d)| <==> exists p :: p in s && OnBuffer(m, p, d)
    {
      ForgottenRefs(m.bufs, s, d);
    }
    FrameFrom(m, m', s);
  }

  lemma ForgottenRefs(bufs: map<Ptr, NetBuf>, s: set<Ptr>, d: Ptr)
    requires s <= bufs.Keys
    ensures |Refs(bufs - s, d)| <= |Refs(bufs, d)|
    ensures |Refs(bufs - s, d)| < |Refs(bufs, d)| <==> exists p :: p in s && p in bufs && bufs[p].data == d
  {
    assert Refs(bufs - s, d) == Refs(bufs, d) - s;
    SubsetSize(Refs(bufs - s, d), Refs(bufs, d));
    if p :| p in s && p in bufs && bufs[p].data == d {
      assert p in Refs(bufs, d);
      SubsetSize(Refs(bufs, d) - s, Refs(bufs, d) - {p});
    }
  }

  ghost predicate OnBuffer(m: Mem, p: Ptr, d: Ptr) {
    p in m.bufs && m.bufs[p].data == d
  }

  lemma {:induction false} SubsetSize(s: set<Ptr>, t: set<Ptr>)
    requires s <= t
    ensures |s| <= |t|
    decreases |s|
  {
    if s != {} {
      var x :| x in s;
      SubsetSize(s - {x}, t - {x});
    }
  }

  lemma BytesNil(m: Mem)
    ensures Bytes(m, []) == []
  {}

  lemma ListNonEmpty(m: Mem, nb: Ptr, ps: seq<Ptr>)
    requires List(m.bufs, nb, ps) && |Bytes(m, ps)| > 0
    ensures ps != [] && nb == ps[0] && nb != NULL && nb in m.bufs
  {}

  /** Nodes remain while bytes do. */
  lemma MoreNodes(m: Mem, ps: seq<Ptr>, i: nat, offset: nat)
    requires i <= |ps| && |Bytes(m, ps[..i])| <= offset < |Bytes(m, ps)|
    ensures i < |ps|
  {
    assert ps[..|ps|] == ps;
  }

  /** Writing the head's total length. */
  lemma SetTotal(m: Mem, p: Ptr, ps: seq<Ptr>, total: nat)
    requires WF(m) && List(m.bufs, p, ps) && p in m.bufs && total == |Bytes(m, ps)|
    ensures var m' := Edit(m, p, m.bufs[p].(total := total));
            && WF(m') && Chain(m', p, ps) && Bytes(m', ps) == Bytes(m, ps) && Frame(m, m', {p})
            && m'.bufs.Keys == m.bufs.Keys
  {
    hide Counted, NodesOk, Frame, Bytes, Seg, Shows;
    var n := m.bufs[p].(total := total);
    LinkOk(m, p, n);
    SegIn(m.bufs, p, ps, NULL);
    SegSame(m.bufs, Edit(m, p, n).bufs, p, ps, NULL);
    ShowsBytes(m, Edit(m, p, n), ps);
  }
}
