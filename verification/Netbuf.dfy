/**
  Netbufs (Sources/fnet_stack/stack/fnet_netbuf.c): chains of windows onto reference-counted data
  buffers that several chains may share.  `m` is the memory they live in; an allocation may fail.
 */
module Netbufs {
  import opened Words
  import opened NetbufMem
  import opened NetbufPull
  import opened NetbufCut

  /** FNET_NETBUF_COPYALL. */
  const COPYALL := -1

  class Netbufs {
    var m: Mem

    constructor ()
      ensures WF(m) && m == Mem(map[], map[])
    {
      m := Mem(map[], map[]);
    }

    /** An unused address for a netbuf, or null when the pool is exhausted. */
    method AllocBuf(served: bool) returns (p: Ptr)
      ensures if served then p != NULL && p !in m.bufs else p == NULL
    {
      if !served {
        p := NULL;
      } else {
        Unused(m.bufs.Keys);
        p :| p != NULL && p !in m.bufs.Keys;
      }
    }

    /** An unused address for a data buffer, or null when the pool is exhausted. */
    method AllocData(served: bool) returns (d: Ptr)
      ensures if served then d != NULL && d !in m.datas else d == NULL
    {
      if !served {
        d := NULL;
      } else {
        Unused(m.datas.Keys);
        d :| d != NULL && d !in m.datas.Keys;
      }
    }

    /** fnet_netbuf_new: a netbuf on a buffer of its own. */
    method New(len: int, supply: Supply) returns (r: Ptr)
      requires WF(m)
      modifies this
      ensures r != NULL <==> len >= 0 && supply(0) && supply(1)
      ensures r == NULL ==> m == old(m)
      ensures r != NULL ==>
                && WF(m) && Chain(m, r, [r]) && |Window(m, r)| == len
                && r !in old(m).bufs && m.bufs.Keys == old(m).bufs.Keys + {r}
                && Frame(old(m), m, {}) && m.bufs[r].off == 0 && m.datas[m.bufs[r].data].refs == 1
                && m.bufs[r].nextChain == NULL
                && m.bufs[r].data !in old(m).datas && m.datas.Keys == old(m).datas.Keys + {m.bufs[r].data}
    {
      if len < 0 {
        return NULL;
      }
      r := AllocBuf(supply(0));
      if r == NULL {
        return;
      }
      var d := AllocData(supply(1));
      if d == NULL {
        return NULL;
      }
      var bytes := seq(len, _ => 0);
      AddOk(m, r, NetBuf(NULL, NULL, d, 0, len, len), bytes);
      m := Add(m, r, NetBuf(NULL, NULL, d, 0, len, len), bytes);
      BytesOne(m, r);
    }

    /** fnet_netbuf_from_buf: a netbuf filled from outside memory. */
    method FromBuf(src: seq<byte>, len: int, supply: Supply) returns (r: Ptr)
      requires WF(m) && len <= |src|
      modifies this
      ensures r != NULL <==> len >= 0 && supply(0) && supply(1)
      ensures r == NULL ==> m == old(m)
      ensures r != NULL ==>
                && WF(m) && Chain(m, r, [r]) && Bytes(m, [r]) == src[..len]
                && r !in old(m).bufs && m.bufs.Keys == old(m).bufs.Keys + {r} && Frame(old(m), m, {})
                && m.bufs[r].nextChain == NULL
                && m.bufs[r].data !in old(m).datas && m.datas.Keys == old(m).datas.Keys + {m.bufs[r].data}
    {
      hide WF, Frame, Bytes, Window, Seg;
      r := New(len, supply);
      if r != NULL {
        ghost var m1 := m;
        WindowLen(m, r);
        WindowSlice(m, r);
        BytesOne(m, r);
        var bytes := src[..len] + m.datas[m.bufs[r].data].bytes[len..];
        WriteOk(m, r, bytes);
        m := Write(m, r, bytes);
        FrameTrans(old(m), m1, m, {}, {r}, {});
        BytesOne(m, r);
      }
    }

    /**
      fnet_netbuf_free: gives up a netbuf, and its buffer with the last reference.  Counters that were right
      stay right, and one that was too high stays too high.
     */
    method Free(nb: Ptr) returns (next: Ptr)
      requires Safe(m) && (nb != NULL ==> nb in m.bufs)
      modifies this
      ensures nb == NULL ==> m == old(m) && next == NULL
      ensures Safe(m) && (WF(old(m)) ==> WF(m)) && forall d :: Stranded(m, d) <==> Stranded(old(m), d)
      ensures nb != NULL ==>
                && old(m).bufs[nb].data in old(m).datas && m == Drop(old(m), nb)
                && next == old(m).bufs[nb].next && m.bufs == old(m).bufs - {nb}
                && Frame(old(m), m, {nb}) && m.datas.Keys <= old(m).datas.Keys
    {
      hide Frame, Stranded;
      SafeIff(m);
      if nb != NULL {
        DropSafe(m, nb);
        SafeIff(Drop(m, nb));
        var d := m.bufs[nb].data;
        if m.datas[d].refs == 1 {
          m := m.(datas := m.datas - {d});
        } else {
          m := m.(datas := m.datas[d := m.datas[d].(refs := m.datas[d].refs - 1)]);
        }
        next := m.bufs[nb].next;
        m := m.(bufs := m.bufs - {nb});
        assert m == Drop(old(m), nb);
      } else {
        next := NULL;
      }
    }

    /** fnet_netbuf_free_chain. */
    method FreeChain(nb: Ptr, ghost ps: seq<Ptr>)
      requires Safe(m) && List(m.bufs, nb, ps)
      modifies this
      ensures Safe(m) && (WF(old(m)) ==> WF(m)) && forall d :: Stranded(m, d) <==> Stranded(old(m), d)
      ensures m.bufs == old(m).bufs - Elems(ps) && Frame(old(m), m, Elems(ps))
    {
      hide WF, Safe, Stranded, Frame;
      var nb := nb;
      ghost var i := 0;
      FrameSelf(m);
      while nb != NULL
        invariant i <= |ps| && Safe(m) && (WF(old(m)) ==> WF(m)) && List(m.bufs, nb, ps[i..])
        invariant forall d :: Stranded(m, d) <==> Stranded(old(m), d)
        invariant m.bufs == old(m).bufs - Elems(ps[..i]) && Frame(old(m), m, Elems(ps[..i]))
        decreases |ps| - i
      {
        ghost var m1 := m;
        ListHead(m1.bufs, nb, ps[i..]);
        nb := Free(nb);
        ListTail(m1.bufs, m.bufs, ps[i], ps[i..]);
        ElemsStep(ps, i);
        FrameTrans(old(m), m1, m, Elems(ps[..i]), {ps[i]}, Elems(ps[..i + 1]));
        i := i + 1;
      }
      assert ps[..i] == ps;
    }

    /** The byte count of a chain, node by node. */
    method Total(nb: Ptr, ghost ps: seq<Ptr>) returns (total: nat)
      requires WF(m) && List(m.bufs, nb, ps) && nb != NULL
      ensures total == |Bytes(m, ps)|
    {
      hide WF, Bytes;
      var tmp := nb;
      ghost var i := 0;
      total := 0;
      BytesNil(m);
      while tmp != NULL
        invariant i <= |ps| && List(m.bufs, tmp, ps[i..])
        invariant total == |Bytes(m, ps[..i])|
        decreases |ps| - i
      {
        ListHead(m.bufs, tmp, ps[i..]);
        WindowLen(m, tmp);
        BytesAt(m, ps, i);
        total := total + m.bufs[tmp].length;
        assert ps[i..][1..] == ps[i + 1..];
        tmp := m.bufs[tmp].next;
        i := i + 1;
      }
      assert ps[..i] == ps;
    }

    /** The netbuf that holds byte `offset` of a chain, and where it is in it. */
    method Locate(nb: Ptr, offset: nat, ghost ps: seq<Ptr>) returns (tmp: Ptr, at: nat, ghost i: nat)
      requires WF(m) && List(m.bufs, nb, ps) && offset < |Bytes(m, ps)|
      ensures At(m, ps, tmp, at, i, offset) && at < m.bufs[tmp].length
    {
      hide WF, Bytes;
      tmp, i := nb, 0;
      BytesNil(m);
      ListHead(m.bufs, nb, ps);
      ListNonEmpty(m, nb, ps);
      if m.bufs[tmp].length > offset {
        at := offset;
      } else {
        WindowLen(m, tmp);
        BytesAt(m, ps, 0);
        var sum := m.bufs[tmp].length;
        while sum <= offset
          invariant i < |ps| && tmp == ps[i] && List(m.bufs, tmp, ps[i..])
          invariant sum == |Bytes(m, ps[..i])| + m.bufs[tmp].length == |Bytes(m, ps[..i + 1])|
          invariant |Bytes(m, ps[..i])| <= offset
          decreases |ps| - i
        {
          SegAt(m.bufs, tmp, ps[i..], NULL, 0);
          BytesAt(m, ps, i);
          MoreNodes(m, ps, i + 1, offset);
          assert ps[i..][1..] == ps[i + 1..];
          i := i + 1;
          tmp := m.bufs[tmp].next;
          WindowLen(m, tmp);
          BytesAt(m, ps, i);
          sum := sum + m.bufs[tmp].length;
        }
        at := m.bufs[tmp].length + offset - sum;
      }
    }

    /**
      fnet_netbuf_to_buf: what is copied out, nothing when the range is not in the chain.  Asking for
      all bytes from past the end, or for fewer than none, runs off the chain.
     */
    method ToBuf(nb: Ptr, offset: int, len: int, ghost ps: seq<Ptr>) returns (buf: seq<byte>)
      requires WF(m) && List(m.bufs, nb, ps) && nb != NULL
      requires len >= COPYALL && (len == COPYALL ==> offset <= |Bytes(m, ps)|)
      ensures 0 <= offset && len == COPYALL ==> buf == Bytes(m, ps)[offset..]
      ensures 0 <= offset && 0 <= len && offset + len <= |Bytes(m, ps)| ==> buf == Bytes(m, ps)[offset..offset + len]
      ensures offset < 0 || offset + len > |Bytes(m, ps)| ==> buf == []
    {
      hide WF, Bytes;
      buf := [];
      var total := Total(nb, ps);
      var n := if len == COPYALL then total - offset else len;
      if len != COPYALL && (len > total - offset || total - offset < 0) {
        return;
      }
      if offset < 0 || n == 0 {
        return;
      }
      var tmp: Ptr, at: nat;
      ghost var i: nat;
      tmp, at, i := Locate(nb, offset, ps);
      buf := CopyOut(tmp, at, n, ps, i, offset);
    }

    /** The copying loop of to_buf, from a cursor on. */
    method CopyOut(nb: Ptr, start: nat, n: nat, ghost ps: seq<Ptr>, ghost j: nat, ghost k: nat) returns (buf: seq<byte>)
      requires WF(m) && 0 < n && At(m, ps, nb, start, j, k) && k + n <= |Bytes(m, ps)|
      ensures buf == Bytes(m, ps)[k..k + n]
    {
      hide WF, Bytes, At, List;
      var tmp, at: nat, left, i: nat := nb, start, n, j;
      buf := [];
      while true
        invariant 0 < left <= n && At(m, ps, tmp, at, i, k + n - left)
        invariant buf == Bytes(m, ps)[k..k + n - left]
        decreases left, |ps| - i
      {
        AtUse(m, ps, tmp, at, i, k + n - left);
        var cur := if m.bufs[tmp].length - at > left then left else m.bufs[tmp].length - at;
        AtSlice(m, ps, tmp, at, i, k + n - left, cur);
        SliceGrow(Bytes(m, ps), k, k + n - left, k + n - left + cur);
        var d, off := m.bufs[tmp].data, m.bufs[tmp].off;
        buf := buf + m.datas[d].bytes[off + at..off + at + cur];
        if left - cur == 0 {
          break;
        }
        AtNext(m, ps, tmp, at, i, k + n - left, k + n - left + cur);
        left := left - cur;
        at := 0;
        tmp := m.bufs[tmp].next;
        i := i + 1;
      }
    }

    /**
      fnet_netbuf_copy: new netbufs on the buffers of the old ones, in the same order.  When memory runs out
      the new netbufs are given up again, but only the first one's reference is: the counters are right
      afterwards exactly if there was no room for a second netbuf.
     */
    method Copy(nb: Ptr, offset: int, len: int, supply: Supply, ghost ps: seq<Ptr>) returns (r: Ptr, ghost rs: seq<Ptr>)
      requires WF(m) && List(m.bufs, nb, ps) && nb != NULL
      requires len >= COPYALL && (len == COPYALL ==> offset < |Bytes(m, ps)|) && (len == 0 ==> offset != |Bytes(m, ps)|)
      modifies this
      ensures offset < 0 || (len != COPYALL && offset + len > |Bytes(old(m), ps)|) ==> r == NULL && m == old(m)
      ensures 0 <= offset && (len != COPYALL ==> offset + len <= |Bytes(old(m), ps)|) ==>
                var hi := if len == COPYALL then |Bytes(old(m), ps)| else offset + len;
                exists i: nat :: Holds(old(m), ps, i, offset) && CopyEnds(old(m), m, ps, r, rs, i, offset, hi, supply)
      ensures 0 <= offset && (len != COPYALL ==> offset + len <= |Bytes(old(m), ps)|) && r == NULL ==>
                if supply(0) && supply(1) then !WF(m) else m == old(m)
    {
      hide Counted, NodesOk, Bytes, At, Copied, Aliased, Frame, Seg, Abandoned;
      rs := [];
      var total := Total(nb, ps);
      var n := if len == COPYALL then total - offset else len;
      if len != COPYALL && (len > total - offset || total - offset < 0) {
        return NULL, rs;
      }
      if offset < 0 {
        return NULL, rs;
      }
      r := AllocBuf(supply(0));
      var tmp: Ptr, at: nat;
      ghost var i: nat;
      tmp, at, i := Locate(nb, offset, ps);
      AtHolds(m, ps, tmp, at, i, offset);
      if r == NULL {
        NoneServed(supply, Reach(m, ps, i, offset + n));
        NothingMade(m, ps, i);
        assert CopyEnds(old(m), m, ps, r, rs, i, offset, offset + n, supply);
        return;
      }
      AtUse(m, ps, tmp, at, i, offset);
      var left := n - (m.bufs[tmp].length - at);
      var cur := if left <= 0 then n else m.bufs[tmp].length - at;
      CopiedFirst(m, ps, tmp, at, i, offset, cur, n, r);
      AliasedFirst(m, ps, tmp, i, r, Part(m.bufs[tmp], at, cur, n));
      m := Share(m, r, Part(m.bufs[tmp], at, cur, n));
      r, rs := CopyRest(r, tmp, left, supply, old(m), ps, i, at, offset, n);
      if r == NULL {
        SegIn(old(m).bufs, nb, ps, NULL);
        WrongIff(old(m), m, ps, i, |rs|, supply);
      }
    }

    /** The loop of copy, after the first netbuf. */
    method CopyRest(head: Ptr, from: Ptr, rest: int, supply: Supply, ghost m0: Mem, ghost ps: seq<Ptr>, ghost j: nat, ghost at: nat,
                    ghost lo: nat, ghost n: nat) returns (r: Ptr, ghost rs: seq<Ptr>)
      requires WF(m0) && At(m0, ps, from, at, j, lo) && lo + n <= |Bytes(m0, ps)|
      requires from in m0.bufs && m0.bufs[from].data in m0.datas && at <= m0.bufs[from].length
      requires rest == n - (m0.bufs[from].length - at)
      requires var cur := if rest <= 0 then n else n - rest;
               && head !in m0.bufs && m == Share(m0, head, Part(m0.bufs[from], at, cur, n))
               && Copied(m0, m, ps, head, [head], lo, lo + cur)
      requires Aliased(m0, m, ps, [head], j) && supply(0)
      modifies this
      ensures CopyEnds(m0, m, ps, r, rs, j, lo, lo + n, supply)
    {
      hide WF, Bytes, At, Copied, Aliased, Frame, Seg, Served, Reach, Copying, CopyingOn, CopyEnds, Abandoned, Share, Edit, Safe, Stranded, OnBuffer;
      var loc, tmp, left, asked := head, from, rest, 1;
      ghost var i: nat, c: nat, k: nat := j, at, lo;
      rs := [head];
      CopiedHead(m0, m, head, n, Part(m0.bufs[from], at, if rest <= 0 then n else n - rest, n));
      CopyingStart(m0, m, ps, head, supply, tmp, c, i, k, n, left);
      while left > 0
        invariant Copying(m0, m, ps, head, rs, supply, tmp, c, i, k, j, lo, n, left)
        invariant rs != [] && loc == rs[|rs| - 1] && asked == |rs| && i < |ps|
        invariant |rs| == 1 ==> m == old(m)
        decreases left, |ps| - i
      {
        CopyingUse(m0, m, ps, head, rs, supply, tmp, c, i, k, j, lo, n, left);
        var x := AllocBuf(supply(asked));
        if x == NULL {
          CopyingStops(m0, m, ps, head, rs, supply, tmp, c, i, k, j, lo, n, left);
          ghost var m1 := m;
          GiveUp(head, m0, rs);
          GaveUp(m0, m1, m, ps, rs, j, lo, lo + n, supply);
          r := NULL;
          return;
        }
        CopyingMore(m0, m, ps, head, rs, supply, tmp, c, i, k, j, lo, n, left);
        tmp := m.bufs[tmp].next;
        var cur := if left - m.bufs[tmp].length < 0 then left else m.bufs[tmp].length;
        CopyingNext(m0, m, ps, head, rs, supply, tmp, i, j, lo, n, left, x, cur);
        i, c, k := i + 1, 0, lo + n - left;
        left := left - m.bufs[tmp].length;
        var shared := Share(m, x, Part(m.bufs[tmp], 0, cur, 0));
        m := Edit(shared, loc, shared.bufs[loc].(next := x));
        loc := x;
        rs := rs + [x];
        asked := asked + 1;
      }
      CopyingDone(m0, m, ps, head, rs, supply, tmp, c, i, k, j, lo, n, left);
      r := head;
    }

    /** Giving up the netbufs of a copy that ran out of memory. */
    method GiveUp(head: Ptr, ghost m0: Mem, ghost rs: seq<Ptr>)
      requires WF(m0) && WF(m) && List(m.bufs, head, rs) && rs != [] && m.bufs.Keys == m0.bufs.Keys + Elems(rs) && Frame(m0, m, {})
      requires forall x :: x in rs ==> x !in m0.bufs
      requires |rs| == 1 ==> exists n: NetBuf :: n.data in m0.datas && m == Share(m0, head, n)
      modifies this
      ensures m.bufs == m0.bufs && Safe(m) && Frame(m0, m, {})
      ensures |rs| == 1 ==> m == m0
      ensures forall d :: Stranded(m, d) <==> exists k: nat :: 1 <= k < |rs| && OnBuffer(old(m), rs[k], d)
    {
      hide WF, Safe, Stranded, Frame, Seg, Elems, OnBuffer;
      ListHead(m.bufs, head, rs);
      if |rs| == 1 {
        ghost var n: NetBuf :| n.data in m0.datas && m == Share(m0, head, n);
        ShareDrop(m0, head, n);
      }
      SafeIff(m);
      var p := Free(head);
      ListTail(old(m).bufs, m.bufs, head, rs);
      ElemsStep(rs, 0);
      FrameSelf(m);
      assert rs[..0] == [];
      ghost var m1, i := m, 1;
      while p != NULL
        invariant 1 <= i <= |rs| && List(m.bufs, p, rs[i..]) && m.datas == m1.datas
        invariant m.bufs == old(m).bufs - Elems(rs[..i])
        decreases |rs| - i
      {
        ListHead(m.bufs, p, rs[i..]);
        ListTail(m.bufs, m.bufs - {p}, p, rs[i..]);
        ElemsStep(rs, i);
        assert rs[i..][1..] == rs[i + 1..];
        var next := m.bufs[p].next;
        m := m.(bufs := m.bufs - {p});
        p := next;
        i := i + 1;
      }
      ListEnd(m.bufs, rs[i..]);
      assert rs[..i] == rs;
      Removed(m0, old(m), rs);
      RestElems(old(m).bufs, head, rs);
      Forgotten(m1, m, Elems(rs[1..]));
      FrameTrans(m0, old(m), m1, {}, {head}, {});
      FrameTrans(m0, m1, m, {}, Elems(rs[1..]), {});
      forall d ensures Stranded(m, d) <==> exists k: nat :: 1 <= k < |rs| && OnBuffer(old(m), rs[k], d) {
        AfterFirst(old(m), m1, head, rs, d);
      }
    }

    /**
      fnet_netbuf_trim with a positive length: the first `len` bytes go, with the netbufs that held
      only them.  `total` is what the head says the chain holds.
     */
    method TrimFront(nb: Ptr, len: nat, ghost ps: seq<Ptr>) returns (r: Ptr, ghost rs: seq<Ptr>)
      requires WF(m) && List(m.bufs, nb, ps) && nb != NULL && 0 < len <= m.bufs[nb].total
      modifies this
      ensures WF(m) && List(m.bufs, r, rs) && |rs| <= |ps| && rs == ps[|ps| - |rs|..]
      ensures Bytes(m, rs) == if len <= |Bytes(old(m), ps)| then Bytes(old(m), ps)[len..] else []
      ensures r != NULL ==> m.bufs[r].total == old(m).bufs[nb].total - len
      ensures m.bufs.Keys == old(m).bufs.Keys - Elems(ps[..|ps| - |rs|]) && Frame(old(m), m, Elems(ps))
      ensures len < old(m).bufs[nb].length ==> r == nb && rs == ps && m == Edit(old(m), nb, Shrunk(old(m).bufs[nb], len))
      ensures len >= |Bytes(old(m), ps)| ==> r == NULL && rs == []
    {
      hide WF, Safe, Stranded, Frame, Bytes, Seg, Elems, Window;
      ListHead(m.bufs, nb, ps);
      var rem := m.bufs[nb].total;
      var sum := m.bufs[nb].length;
      r := nb;
      ghost var i := 0;
      FrameSelf(m);
      BytesNil(m);
      assert ps[..0] == [] && ps[..|ps|] == ps;
      WindowLen(m, nb);
      BytesAt(m, ps, 0);
      while r != NULL && len >= sum
        invariant i <= |ps| && WF(m) && List(m.bufs, r, ps[i..]) && (r != NULL ==> r in m.bufs && i < |ps|)
        invariant m.bufs == old(m).bufs - Elems(ps[..i]) && Frame(old(m), m, Elems(ps[..i]))
        invariant len >= |Bytes(old(m), ps[..i])|
        invariant len < old(m).bufs[nb].length ==> i == 0 && m == old(m) && r == nb && sum == m.bufs[nb].length
        invariant r != NULL ==> sum == |Bytes(old(m), ps[..i])| + m.bufs[r].length == |Bytes(old(m), ps[..i + 1])|
        decreases |ps| - i
      {
        ghost var m1 := m;
        ListHead(m.bufs, r, ps[i..]);
        SafeIff(m);
        r := Free(r);
        ListTail(m1.bufs, m.bufs, ps[i], ps[i..]);
        assert ps[i..][1..] == ps[i + 1..];
        ElemsStep(ps, i);
        FrameTrans(old(m), m1, m, Elems(ps[..i]), {ps[i]}, Elems(ps[..i + 1]));
        i := i + 1;
        ListHead(m.bufs, r, ps[i..]);
        if r != NULL {
          FrontLen(old(m), m, nb, ps, i);
          sum := sum + m.bufs[r].length;
        }
      }
      rs := ps[i..];
      ghost var m1 := m;
      FrontBytes(old(m), m, nb, ps, i);
      if r != NULL {
        ListHead(m.bufs, r, rs);
        WindowLen(m, r);
        var cut := m.bufs[r].length - (sum - len);
        PrefixMono(old(m), ps, i + 1, |ps|);
        CutFront(m, r, rs, cut, rem - len);
        SuffixSlice(Bytes(old(m), ps[..i]), Bytes(old(m), rs), cut);
        var n := m.bufs[r];
        m := Edit(m, r, n.(off := n.off + cut, length := sum - len, total := rem - len));
      } else {
        ListEnd(m.bufs, rs);
        BytesNil(m);
      }
      FrontFrame(old(m), m1, m, ps, i);
    }

    /** The loop of trim that frees the netbufs after `nb`. */
    method FreeNexts(nb: Ptr, ghost qs: seq<Ptr>)
      requires WF(m) && List(m.bufs, nb, qs) && nb != NULL
      modifies this
      ensures WF(m) && m.bufs.Keys == old(m).bufs.Keys - Elems(qs[1..]) && Frame(old(m), m, Elems(qs))
      ensures nb in m.bufs && nb in old(m).bufs && m.bufs[nb] == old(m).bufs[nb].(next := NULL)
      ensures Window(m, nb) == Window(old(m), nb)
    {
      hide WF, Safe, Stranded, Frame, Bytes, Elems, Window;
      ghost var j := 1;
      ListHead(m.bufs, nb, qs);
      NextsInit(m, qs);
      while m.bufs[nb].next != NULL
        invariant 1 <= j <= |qs| && Trimmed(old(m), m, qs, j)
        decreases |qs| - j
      {
        ghost var m1 := m;
        NextsUse(old(m), m, qs, j);
        SafeIff(m);
        var next := Free(m.bufs[nb].next);
        NextsStep(old(m), m1, m, qs, j, next);
        m := Edit(m, nb, m.bufs[nb].(next := next));
        j := j + 1;
      }
      NextsEnd(old(m), m, qs, j);
    }

    /** fnet_netbuf_trim with a negative length: only the first `keep` bytes stay. */
    method TrimBack(nb: Ptr, keep: nat, ghost ps: seq<Ptr>) returns (r: Ptr, ghost rs: seq<Ptr>)
      requires WF(m) && Chain(m, nb, ps) && nb != NULL && keep < m.bufs[nb].total
      modifies this
      ensures WF(m) && Chain(m, r, rs) && rs <= ps && Bytes(m, rs) == Bytes(old(m), ps)[..keep]
      ensures m.bufs.Keys == old(m).bufs.Keys - Elems(ps[|rs|..]) && Frame(old(m), m, Elems(ps))
    {
      hide WF, Safe, Stranded, Frame, Bytes, Seg, Elems, Window, Distinct;
      ListHead(m.bufs, nb, ps);
      WindowLen(m, nb);
      BytesNil(m);
      BytesAt(m, ps, 0);
      assert ps[..0] == [] && ps[0..] == ps && ps[..|ps|] == ps;
      var last, sum := nb, m.bufs[nb].length;
      ghost var i: nat := 0;
      while keep > sum
        invariant m == old(m) && i < |ps| && last == ps[i] && last in m.bufs && List(m.bufs, last, ps[i..])
        invariant sum == |Bytes(m, ps[..i])| + m.bufs[last].length == |Bytes(m, ps[..i + 1])|
        invariant |Bytes(m, ps[..i])| <= keep && (i > 0 ==> |Bytes(m, ps[..i])| < keep)
        decreases |ps| - i
      {
        SegAt(m.bufs, last, ps[i..], NULL, 0);
        MoreNodes(m, ps, i + 1, keep);
        assert ps[i..][1..] == ps[i + 1..];
        i := i + 1;
        last := m.bufs[last].next;
        WindowLen(m, last);
        BytesAt(m, ps, i);
        sum := sum + m.bufs[last].length;
      }
      ghost var m0, m1 := m, Edit(m, last, m.bufs[last].(length := m.bufs[last].length + keep - sum));
      ListHead(m.bufs, last, ps[i..]);
      CutBack(m, nb, ps, i, keep);
      m := Edit(m, last, m.bufs[last].(length := m.bufs[last].length + keep - sum));
      FreeNexts(last, ps[i..]);
      BackDone(m0, m1, m, nb, ps, i, keep);
      rs := ps[..i + 1];
      r := nb;
      if m.bufs[last].length == 0 {
        OnlyHead(m, ps, i, keep);
        ghost var m2 := m;
        SafeIff(m);
        r := Free(last);
        rs := [];
        BackEmpty(m0, m2, m, ps);
        EmptyChain(m);
      } else {
        SetTotal(m, nb, rs, keep);
        BackTotal(m0, m, nb, ps, m.bufs[nb].(total := keep));
        m := Edit(m, nb, m.bufs[nb].(total := keep));
      }
    }

    /** fnet_netbuf_trim. */
    method Trim(nb: Ptr, len: int, ghost ps: seq<Ptr>) returns (r: Ptr, ghost rs: seq<Ptr>)
      requires WF(m) && (len != 0 ==> Chain(m, nb, ps) && nb != NULL)
      modifies this
      ensures WF(m) && (len != 0 ==> Chain(m, r, rs)) && Frame(old(m), m, Elems(ps))
      ensures len == 0 || |Bytes(old(m), ps)| < (if len > 0 then len else -len) ==> m == old(m) && r == nb && rs == ps
      ensures 0 < len <= |Bytes(old(m), ps)| ==> Bytes(m, rs) == Bytes(old(m), ps)[len..]
      ensures 0 < -len <= |Bytes(old(m), ps)| ==> Bytes(m, rs) == Bytes(old(m), ps)[..|Bytes(old(m), ps)| + len]
      ensures m.bufs.Keys == old(m).bufs.Keys - (Elems(ps) - Elems(rs)) && Elems(rs) <= Elems(ps)
      ensures nb in old(m).bufs && 0 < len < old(m).bufs[nb].length ==>
                r == nb && rs == ps && m == Edit(old(m), nb, Shrunk(old(m).bufs[nb], len))
      ensures 0 < len == |Bytes(old(m), ps)| ==> r == NULL && rs == []
    {
      hide WF, Frame, Bytes, Seg, Elems;
      rs := ps;
      FrameMore(m, Elems(ps));
      if len == 0 {
        return nb, rs;
      }
      ListHead(m.bufs, nb, ps);
      if m.bufs[nb].total < (if len > 0 then len else -len) {
        return nb, rs;
      }
      if len > 0 {
        r, rs := TrimFront(nb, len, ps);
        ListHead(m.bufs, r, rs);
        KeptBack(old(m).bufs, nb, ps, |ps| - |rs|);
      } else {
        r, rs := TrimBack(nb, m.bufs[nb].total + len, ps);
        KeptFront(old(m).bufs, nb, ps, |rs|);
        assert rs == ps[..|rs|];
      }
    }

    /** fnet_netbuf_concat: the second chain after the first. */
    method Concat(nb1: Ptr, nb2: Ptr, ghost ps: seq<Ptr>, ghost qs: seq<Ptr>) returns (r: Ptr)
      requires WF(m) && Chain(m, nb1, ps) && Chain(m, nb2, qs) && Elems(ps) !! Elems(qs)
      modifies this
      ensures WF(m) && Chain(m, r, ps + qs) && Bytes(m, ps + qs) == Bytes(old(m), ps) + Bytes(old(m), qs)
      ensures m.bufs.Keys == old(m).bufs.Keys && Frame(old(m), m, Elems(ps)) && Relinked(old(m), m)
      ensures r == if nb1 == NULL then nb2 else nb1
    {
      hide WF, Frame, Bytes, Seg, Elems, Shows, Relinked;
      RelinkedSelf(m);
      FrameMore(m, Elems(ps));
      ListHead(m.bufs, nb1, ps);
      ListHead(m.bufs, nb2, qs);
      BytesNil(m);
      if nb1 == NULL {
        assert ps + qs == qs;
        return nb2;
      }
      if nb2 == NULL {
        assert ps + qs == ps;
        return nb1;
      }
      var last := nb1;
      ghost var i: nat := 0;
      while m.bufs[last].next != NULL
        invariant m == old(m) && i < |ps| && last == ps[i] && last in m.bufs && List(m.bufs, last, ps[i..])
        decreases |ps| - i
      {
        SegAt(m.bufs, last, ps[i..], NULL, 0);
        assert ps[i..][1..] == ps[i + 1..];
        ListHead(m.bufs, m.bufs[last].next, ps[i + 1..]);
        last := m.bufs[last].next;
        i := i + 1;
      }
      SegAt(m.bufs, last, ps[i..], NULL, 0);
      assert ps[i..][1..] == ps[i + 1..];
      ListEnd(m.bufs, ps[i + 1..]);
      JoinOk(m, nb1, ps, nb2, qs, m.bufs[last].(next := nb2));
      RelinkedEdit(m, last, m.bufs[last].(next := nb2));
      m := Edit(m, last, m.bufs[last].(next := nb2));
      ghost var m1 := m;
      var n := m.bufs[nb1].(total := m.bufs[nb1].total + m.bufs[nb2].total);
      JoinTotals(old(m), m1, nb1, ps, nb2, qs);
      SetTotal(m, nb1, ps + qs, n.total);
      RelinkedEdit(m, nb1, n);
      m := Edit(m, nb1, n);
      RelinkedTrans(old(m), m1, m);
      JoinFrame(old(m), m1, m, nb1, ps);
      r := nb1;
    }

    /** fnet_netbuf_pullup: the same bytes, the first `len` of them in one netbuf. */
    method Pullup(nb: Ptr, len: int, supply: Supply, ghost ps: seq<Ptr>) returns (r: Ptr, ghost rs: seq<Ptr>)
      requires WF(m) && Chain(m, nb, ps) && nb != NULL
      modifies this
      ensures r != NULL <==> 0 <= len <= |Bytes(old(m), ps)| && (len <= |Window(old(m), nb)| || supply(0))
      ensures r == NULL ==> m == old(m)
      ensures 0 <= len <= |Bytes(old(m), ps)| && |Window(old(m), nb)| >= len ==> r == nb && rs == ps && m == old(m)
      ensures r != NULL ==>
                && r == nb && WF(m) && Chain(m, nb, rs) && Bytes(m, rs) == Bytes(old(m), ps) && len <= |Window(m, nb)|
                && m.bufs.Keys == old(m).bufs.Keys - (Elems(ps) - Elems(rs)) && Elems(rs) <= Elems(ps)
                && Frame(old(m), m, Elems(ps))
    {
      hide WF, Frame, Bytes, Seg, Elems, Window, Pulled, Distinct;
      rs := ps;
      r := nb;
      ListHead(m.bufs, nb, ps);
      WindowLen(m, nb);
      FrameMore(m, Elems(ps));
      // A negative length compares as an unsigned number above every total.
      if len < 0 || m.bufs[nb].total < len {
        return NULL, rs;
      }
      if m.bufs[nb].length >= len || len == 0 {
        return;
      }
      var d := AllocData(supply(0));
      if d == NULL {
        return NULL, rs;
      }
      rs := Gather(nb, len, d, ps);
    }

    /** The netbuf that holds the last of the first `len` bytes. */
    method FindLast(nb: Ptr, len: nat, ghost ps: seq<Ptr>) returns (tmp: Ptr, ghost e: nat)
      requires WF(m) && List(m.bufs, nb, ps) && nb != NULL && nb in m.bufs && m.bufs[nb].length < len <= |Bytes(m, ps)|
      ensures 1 <= e < |ps| && tmp == ps[e] && |Bytes(m, ps[..e])| < len <= |Bytes(m, ps[..e + 1])|
    {
      hide WF, Bytes, Seg;
      ListHead(m.bufs, nb, ps);
      WindowLen(m, nb);
      BytesNil(m);
      BytesAt(m, ps, 0);
      assert ps[..0] == [] && ps[0..] == ps && ps[..|ps|] == ps;
      var sum := m.bufs[nb].length;
      tmp, e := nb, 0;
      while sum < len
        invariant e < |ps| && tmp == ps[e] && tmp in m.bufs && List(m.bufs, tmp, ps[e..])
        invariant sum == |Bytes(m, ps[..e + 1])|
        invariant |Bytes(m, ps[..e])| < len && (e == 0 ==> sum < len)
        decreases |ps| - e
      {
        SegAt(m.bufs, tmp, ps[e..], NULL, 0);
        MoreNodes(m, ps, e + 1, len - 1);
        assert ps[e..][1..] == ps[e + 1..];
        e := e + 1;
        tmp := m.bufs[tmp].next;
        WindowLen(m, tmp);
        BytesAt(m, ps, e);
        sum := sum + m.bufs[tmp].length;
      }
    }

    /** The copying part of pullup, once the new buffer `d` has been allocated. */
    method Gather(nb: Ptr, len: nat, d: Ptr, ghost ps: seq<Ptr>) returns (ghost rs: seq<Ptr>)
      requires WF(m) && Chain(m, nb, ps) && nb != NULL && nb in m.bufs && m.bufs[nb].length < len <= |Bytes(m, ps)|
      requires d !in m.datas && d != NULL
      modifies this
      ensures WF(m) && Chain(m, nb, rs) && Bytes(m, rs) == Bytes(old(m), ps) && len == |Window(m, nb)|
      ensures m.bufs.Keys == old(m).bufs.Keys - (Elems(ps) - Elems(rs)) && Elems(rs) <= Elems(ps)
      ensures Frame(old(m), m, Elems(ps))
    {
      hide WF, Safe, Stranded, Frame, Bytes, Seg, Elems, Window, Pulled, Distinct;
      ghost var m0 := m;
      var tmp;
      ghost var e;
      tmp, e := FindLast(nb, len, ps);
      ListHead(m.bufs, nb, ps);
      ListDistinct(m.bufs, nb, ps);
      WindowLen(m, nb);
      WindowSlice(m, nb);
      var n := m.bufs[nb];
      var bytes := m.datas[n.data].bytes[n.off..n.off + n.length] + seq(len - n.length, _ => 0);
      PulledStart(m, ps, d, bytes, len);
      m := Rehome(m, nb, n.(data := d, off := 0), bytes);
      var offset, run := n.length, n.next;
      ghost var j := 1;
      BytesOne(m0, nb);
      assert ps[..1] == [nb];
      SegAt(m0.bufs, nb, ps, NULL, 0);
      while run != tmp
        invariant 1 <= j <= e && run == ps[j] && offset == |Bytes(m0, ps[..j])| && Pulled(m0, m, ps, d, j, len)
        decreases e - j
      {
        PulledUse(m0, m, ps, d, j, len);
        RestKept(m0, m, ps, j);
        NotYet(m0, ps, j, e);
        PrefixMono(m0, ps, j + 1, e);
        PulledNext(m0, m, ps, d, j, len);
        WindowLen(m, run);
        WindowSlice(m, run);
        var w := m.bufs[run];
        m := m.(datas := m.datas[d := m.datas[d].(bytes := Put(m.datas[d].bytes, offset, m.datas[w.data].bytes[w.off..w.off + w.length]))]);
        offset := offset + w.length;
        BytesAt(m0, ps, j);
        SegAt(m0.bufs, nb, ps, NULL, j);
        SafeIff(m);
        run := Free(run);
        j := j + 1;
      }
      AtEnd(m0, ps, j, e);
      rs := GatherLast(nb, run, len, offset, d, m0, ps, e);
    }

    /** The end of pullup: the last netbuf gives the bytes still wanted. */
    method GatherLast(nb: Ptr, last: Ptr, len: nat, offset: nat, d: Ptr, ghost m0: Mem, ghost ps: seq<Ptr>, ghost e: nat)
        returns (ghost rs: seq<Ptr>)
      requires 1 <= e < |ps| && nb == ps[0] && last == ps[e] && WF(m0) && Chain(m0, nb, ps) && Pulled(m0, m, ps, d, e, len)
      requires offset == |Bytes(m0, ps[..e])| <= len <= |Bytes(m0, ps[..e + 1])|
      modifies this
      ensures WF(m) && Chain(m, nb, rs) && Bytes(m, rs) == Bytes(m0, ps) && len == |Window(m, nb)|
      ensures m.bufs.Keys == m0.bufs.Keys - (Elems(ps) - Elems(rs)) && Elems(rs) <= Elems(ps)
      ensures Frame(m0, m, Elems(ps))
    {
      hide WF, Safe, Stranded, Frame, Bytes, Seg, Elems, Window, Pulled, Distinct;
      PulledUse(m0, m, ps, d, e, len);
      RestKept(m0, m, ps, e);
      PulledLast(m0, m, ps, d, e, len);
      ListDistinct(m0.bufs, nb, ps);
      BytesAt(m0, ps, e);
      var run := last;
      var w, t := m.bufs[run], len - offset;
      WindowLen(m, run);
      WindowSlice(m, run);
      TakeSlice(m.datas[w.data].bytes, w.off, w.length, t);
      m := m.(datas := m.datas[d := m.datas[d].(bytes := Put(m.datas[d].bytes, offset, m.datas[w.data].bytes[w.off..w.off + t]))]);
      ghost var m1, gone := m, e;
      RestKept(m0, m1, ps, e);
      WindowLen(m1, run);
      OneRef(m1, nb, run);
      if w.length == t {
        DropOther(m1, run, d);
        SafeIff(m);
        run := Free(run);
        RestFreed(m0, m1, m, ps, e, len);
        gone := e + 1;
      } else {
        CutFront(m1, run, ps[e..], t, w.total);
        m := Edit(m, run, w.(length := w.length - t, off := w.off + t));
        RestCut(m0, m1, m, ps, e, t);
      }
      FirstElem(ps, e);
      GatherElems(ps, gone);
      Gathered(m0, m, ps, d, len, run, ps[gone..]);
      m := Edit(m, nb, m.bufs[nb].(next := run, length := len));
      rs := [nb] + ps[gone..];
    }

    /** Where a cut begins: the netbuf holding byte `offset`, and the one before it. */
    method FindCut(nb: Ptr, offset: nat, ghost ps: seq<Ptr>) returns (cur: Ptr, prev: Ptr, sum: nat, ghost i: nat)
      requires WF(m) && List(m.bufs, nb, ps) && offset < |Bytes(m, ps)|
      ensures i < |ps| && cur == ps[i] && cur in m.bufs && sum == |Bytes(m, ps[..i])| + m.bufs[cur].length
      ensures |Bytes(m, ps[..i])| <= offset < sum && (i > 0 ==> prev == ps[i - 1])
    {
      hide WF, Bytes, Seg;
      ListNonEmpty(m, nb, ps);
      ListHead(m.bufs, nb, ps);
      WindowLen(m, nb);
      BytesNil(m);
      BytesAt(m, ps, 0);
      assert ps[..0] == [] && ps[0..] == ps && ps[..|ps|] == ps;
      cur, prev, sum, i := nb, nb, m.bufs[nb].length, 0;
      while offset >= sum
        invariant i < |ps| && cur == ps[i] && cur in m.bufs && List(m.bufs, cur, ps[i..])
        invariant sum == |Bytes(m, ps[..i])| + m.bufs[cur].length == |Bytes(m, ps[..i + 1])|
        invariant |Bytes(m, ps[..i])| <= offset && (if i > 0 && offset < sum then prev == ps[i - 1] else prev == cur)
        decreases |ps| - i
      {
        SegAt(m.bufs, cur, ps[i..], NULL, 0);
        MoreNodes(m, ps, i + 1, offset);
        assert ps[i..][1..] == ps[i + 1..];
        i := i + 1;
        cur := m.bufs[cur].next;
        WindowLen(m, cur);
        BytesAt(m, ps, i);
        sum := sum + m.bufs[cur].length;
        if offset >= sum {
          prev := cur;
        }
      }
    }

    /** Trimming the list after `prev`, with the head's total for the trim to compare with. */
    method TrimAfter(nb: Ptr, prev: Ptr, n: nat, ghost ps: seq<Ptr>, ghost k: nat) returns (ghost rs: seq<Ptr>)
      requires WF(m) && List(m.bufs, nb, ps) && 1 <= k < |ps| && prev == ps[k - 1] && nb in m.bufs
      requires 0 < n <= |Bytes(m, ps[k..])| && n <= m.bufs[nb].total
      modifies this
      ensures WF(m) && List(m.bufs, nb, rs) && Bytes(m, rs) == Bytes(old(m), ps[..k]) + Bytes(old(m), ps[k..])[n..]
      ensures Frame(old(m), m, Elems(ps)) && nb in m.bufs && m.bufs[nb].total == old(m).bufs[nb].total
      ensures m.bufs.Keys == old(m).bufs.Keys - (Elems(ps) - Elems(rs)) && Elems(rs) <= Elems(ps)
    {
      hide WF, Frame, Bytes, Seg, Elems, Window, Distinct, Shows, Shrunk;
      ghost var m0 := m;
      SegAt(m.bufs, nb, ps, NULL, k);
      SegAt(m.bufs, nb, ps, NULL, k - 1);
      var next := m.bufs[prev].next;
      AfterTotal(m0, nb, ps, k, m.bufs[nb].total);
      m := Edit(m, next, m.bufs[next].(total := m.bufs[nb].total));
      ghost var m1, qs := m, [];
      ListHead(m.bufs, next, ps[k..]);
      next, qs := TrimFront(next, n, ps[k..]);
      AfterTrim(m0, m1, m, nb, ps, k, next, qs);
      AfterTrimKeys(m0, m1, m, nb, ps, k, qs);
      m := Edit(m, prev, m.bufs[prev].(next := next));
      rs := ps[..k] + qs;
    }

    /**
      The middle of a shared netbuf: the bytes after the cut are copied to a new netbuf that follows it.
      Returns false, with nothing changed, when there is no memory for it.
     */
    method CutShared(nb: Ptr, cur: Ptr, at: nat, n: nat, supply: Supply, ghost ps: seq<Ptr>, ghost i: nat) returns (ok: bool, ghost rs: seq<Ptr>)
      requires WF(m) && List(m.bufs, nb, ps) && i < |ps| && cur == ps[i] && cur in m.bufs && nb in m.bufs
      requires at + n < m.bufs[cur].length
      modifies this
      ensures ok <==> supply(0) && supply(1)
      ensures !ok ==> m == old(m)
      ensures ok ==>
                && WF(m) && List(m.bufs, nb, rs) && nb in m.bufs && m.bufs[nb].total == old(m).bufs[nb].total
                && at + n <= |Window(old(m), cur)|
                && Bytes(m, rs) == Bytes(old(m), ps[..i])
                                 + (Window(old(m), cur)[..at] + Window(old(m), cur)[at + n..] + Bytes(old(m), ps[i + 1..]))
                && Frame(old(m), m, Elems(ps)) && m.bufs.Keys >= old(m).bufs.Keys
                && (forall x :: x in rs ==> x in ps || x !in old(m).bufs) && m.bufs.Keys == old(m).bufs.Keys + Elems(rs)
                && Elems(ps) <= Elems(rs) && |rs| == |ps| + 1 && rs[..i + 1] == ps[..i + 1] && rs[i + 2..] == ps[i + 1..]
    {
      hide WF, Frame, Bytes, Seg, Elems, Window, Distinct, Shows;
      ghost var m0 := m;
      WindowLen(m, cur);
      WindowSlice(m, cur);
      var w := m.bufs[cur];
      var src := m.datas[w.data].bytes[w.off + at + n..w.off + w.length];
      var x := FromBuf(src, w.length - at - n, supply);
      if x == NULL {
        ok, rs := false, ps;
        return;
      }
      ghost var m1 := m;
      SharedNew(m0, m1, nb, ps, i, x);
      m := Edit(m, x, m.bufs[x].(next := w.next));
      SharedCut(m0, m1, m, nb, ps, i, x, at, n);
      m := Edit(m, cur, w.(next := x, length := at));
      rs := ps[..i + 1] + ([x] + ps[i + 1..]);
      ok := true;
    }

    /**
      fnet_netbuf_cut_center: bytes `offset` to `offset + len` go.  `nb` is the head afterwards, `r` what
      the call returns; it is null when nothing was cut and when everything was.
     */
    method CutCenter(nb0: Ptr, offset: nat, len: nat, supply: Supply, ghost ps: seq<Ptr>)
        returns (r: Ptr, nb: Ptr, ghost done: bool, ghost rs: seq<Ptr>)
      requires WF(m) && Chain(m, nb0, ps) && nb0 != NULL
      modifies this
      ensures WF(m) && Chain(m, nb, rs) && Frame(old(m), m, Elems(ps))
      ensures done <==>
                && 0 < len && offset + len <= |Bytes(old(m), ps)|
                && ((supply(0) && supply(1)) || forall i: nat :: Inside(old(m), ps, i, offset, len) ==> Single(old(m), ps[i]))
      ensures !done ==> m == old(m) && r == NULL && nb == nb0 && rs == ps
      ensures done ==> offset + len <= |Bytes(old(m), ps)| && Bytes(m, rs) == Without(Bytes(old(m), ps), offset, len) && r == nb
      ensures m.bufs.Keys == old(m).bufs.Keys - (Elems(ps) - Elems(rs)) + Elems(rs)
      ensures forall x :: x in rs ==> x in ps || x !in old(m).bufs
    {
      hide WF, Frame, Bytes, Seg, Elems, Window, Distinct, Shows;
      nb, done, rs := nb0, false, ps;
      ListHead(m.bufs, nb, ps);
      FrameMore(m, Elems(ps));
      ElemsWithin(m, nb, ps);
      if len == 0 || m.bufs[nb].total < len + offset {
        return NULL, nb, done, rs;
      }
      if offset == 0 {
        nb, rs := Trim(nb, len, ps);
        ElemsSubset(rs, ps);
        return nb, nb, true, rs;
      }
      ghost var m0 := m;
      var cur, prev, sum;
      ghost var i;
      cur, prev, sum, i := FindCut(nb, offset, ps);
      WindowLen(m, cur);
      BytesAt(m, ps, i);
      BytesNil(m);
      assert ps[..0] == [];
      InsideAt(m, ps, i, offset, len);
      if sum - m.bufs[cur].length == offset {
        rs := TrimAfter(nb, prev, len, ps, i);
        CutStart(m0, m, nb, ps, rs, i, offset, len);
      } else if sum - offset > len {
        var ok;
        ok, rs := CutInside(nb, cur, m.bufs[cur].length - (sum - offset), len, supply, ps, i);
        if !ok {
          return NULL, nb, done, ps;
        }
      } else {
        rs := CutTail(nb, cur, sum - offset, len, ps, i);
      }
      CutFinish(m0, m, nb, ps, rs, offset, len);
      m := Edit(m, nb, m.bufs[nb].(total := m.bufs[nb].total - len));
      r, done := nb, true;
    }

    /** The cut begins and ends inside one netbuf. */
    method CutInside(nb: Ptr, cur: Ptr, at: nat, len: nat, supply: Supply, ghost ps: seq<Ptr>, ghost i: nat) returns (ok: bool, ghost rs: seq<Ptr>)
      requires WF(m) && List(m.bufs, nb, ps) && i < |ps| && cur == ps[i] && cur in m.bufs && nb in m.bufs
      requires 0 < len && at + len < m.bufs[cur].length
      modifies this
      ensures !ok ==> m == old(m)
      ensures ok ==> CutState(old(m), m, nb, ps, rs, |Bytes(old(m), ps[..i])| + at, len)
      ensures ok <==> Single(old(m), cur) || (supply(0) && supply(1))
      ensures Single(old(m), cur) ==> rs == ps
      ensures !Single(old(m), cur) && ok ==> |rs| == |ps| + 1 && rs[..i + 1] == ps[..i + 1] && rs[i + 2..] == ps[i + 1..]
    {
      hide WF, Frame, Bytes, Seg, Elems, Window, Distinct, Shows, CutState;
      WindowLen(m, cur);
      WindowSlice(m, cur);
      BytesAt(m, ps, i);
      ghost var m0 := m;
      if m.datas[m.bufs[cur].data].refs == 1 {
        var w := m.bufs[cur];
        var b := m.datas[w.data].bytes;
        CutInPlace(m, cur, at, len);
        CutMoved(m, nb, ps, i, at, len);
        m := Write(m, cur, Put(b, w.off + at, b[w.off + at + len..w.off + w.length]));
        m := Edit(m, cur, w.(length := w.length - len));
        ok, rs := true, ps;
      } else {
        ok, rs := CutShared(nb, cur, at, len, supply, ps, i);
        if ok {
          CutSplit(m0, m, nb, ps, rs, i, at, len);
        }
      }
    }

    /** The cut begins inside a netbuf, `left` bytes before its end, and takes the rest of it. */
    method CutTail(nb: Ptr, cur: Ptr, left: nat, len: nat, ghost ps: seq<Ptr>, ghost i: nat) returns (ghost rs: seq<Ptr>)
      requires WF(m) && List(m.bufs, nb, ps) && i < |ps| && cur == ps[i] && cur in m.bufs && nb in m.bufs
      requires 0 < left <= len && left < m.bufs[cur].length && m.bufs[nb].total == |Bytes(m, ps)|
      requires |Bytes(m, ps[..i])| + m.bufs[cur].length - left + len <= |Bytes(m, ps)|
      modifies this
      ensures CutState(old(m), m, nb, ps, rs, |Bytes(old(m), ps[..i])| + old(m).bufs[cur].length - left, len)
    {
      hide WF, Frame, Bytes, Seg, Elems, Window, Distinct, Shows, CutState;
      ghost var m0, at := m, m.bufs[cur].length - left;
      WindowLen(m, cur);
      BytesAt(m, ps, i);
      CutEnd(m, cur, at);
      m := Edit(m, cur, m.bufs[cur].(length := m.bufs[cur].length - left));
      ghost var m1 := m;
      TailEnds(m0, m1, nb, ps, i, at);
      rs := ps;
      if left != len {
        MoreAfter(m0, ps, i);
        rs := TrimAfter(nb, cur, len - left, ps, i + 1);
      } else {
        FrameMore(m1, Elems(ps));
      }
      TailBytes(m0, m1, ps, i, at, len, Bytes(m, rs));
      TailDone(m0, m1, m, nb, ps, rs, i, |Bytes(m0, ps[..i])| + at, len);
    }
  }

  lemma ListEnd(bufs: map<Ptr, NetBuf>, ps: seq<Ptr>)
    requires List(bufs, NULL, ps)
    ensures ps == []
  {}

  /** Without its new netbufs the memory holds the netbufs it had. */
  lemma Removed(m0: Mem, m: Mem, rs: seq<Ptr>)
    requires Frame(m0, m, {}) && m.bufs.Keys == m0.bufs.Keys + Elems(rs) && forall x :: x in rs ==> x !in m0.bufs
    ensures m.bufs - Elems(rs) == m0.bufs
  {}

  lemma RestElems(bufs: map<Ptr, NetBuf>, p: Ptr, ps: seq<Ptr>)
    requires List(bufs, p, ps) && ps != []
    ensures Elems(ps) == {p} + Elems(ps[1..]) && p !in Elems(ps[1..]) && Elems(ps) <= bufs.Keys
  {
    ListDistinct(bufs, p, ps);
    SegIn(bufs, p, ps, NULL);
    assert ps == [ps[0]] + ps[1..];
  }

  /** The buffers of a list's netbufs after the first. */
  lemma AfterFirst(m: Mem, m': Mem, p: Ptr, ps: seq<Ptr>, d: Ptr)
    requires List(m.bufs, p, ps) && ps != [] && m'.bufs == m.bufs - {p}
    ensures (exists q :: q in Elems(ps[1..]) && OnBuffer(m', q, d)) <==> exists k: nat :: 1 <= k < |ps| && OnBuffer(m, ps[k], d)
  {
    hide Seg;
    ListDistinct(m.bufs, p, ps);
    ListHead(m.bufs, p, ps);
    if q :| q in Elems(ps[1..]) && OnBuffer(m', q, d) {
      var k: nat :| k < |ps[1..]| && ps[1..][k] == q;
      assert ps[k + 1] == q;
    }
    if k: nat :| 1 <= k < |ps| && OnBuffer(m, ps[k], d) {
      assert ps[1..][k - 1] == ps[k] != ps[0];
      assert OnBuffer(m', ps[1..][k - 1], d);
    }
  }

  /**
    How a copy of bytes `lo..hi`, which begins in netbuf `i`, ends: with one new netbuf for each old one, if
    the pool has room for them all.
   */
  ghost predicate CopyEnds(m0: Mem, m: Mem, ps: seq<Ptr>, r: Ptr, rs: seq<Ptr>, i: nat, lo: nat, hi: nat, supply: Supply) {
    && (r != NULL <==> Served(supply, Reach(m0, ps, i, hi)))
    && (r != NULL ==>
          && Copied(m0, m, ps, r, rs, lo, hi) && Chain(m, r, rs)
          && Aliased(m0, m, ps, rs, i) && |rs| == Reach(m0, ps, i, hi))
    && (r == NULL ==> Abandoned(m0, m, ps, i, |rs|) && |rs| < Reach(m0, ps, i, hi) && Served(supply, |rs|) && !supply(|rs|))
  }

  /**
    What a copy that began in netbuf `i` leaves when memory runs out after `n` netbufs: the netbufs as they
    were, and a counter too high on just the buffers that the second and later ones were on.
   */
  ghost predicate Abandoned(m0: Mem, m: Mem, ps: seq<Ptr>, i: nat, n: nat) {
    && Safe(m) && m.bufs == m0.bufs && Frame(m0, m, {}) && i + n <= |ps| && (n <= 1 ==> m == m0)
    && forall d :: Stranded(m, d) <==> exists j: nat :: i < j < i + n && OnBuffer(m0, ps[j], d)
  }

  /** Counters go wrong exactly if there was room for a second netbuf. */
  lemma WrongIff(m0: Mem, m: Mem, ps: seq<Ptr>, i: nat, n: nat, supply: Supply)
    requires Abandoned(m0, m, ps, i, n) && Served(supply, n) && !supply(n) && forall p :: p in ps ==> p in m0.bufs
    ensures WF(m) <==> !(supply(0) && supply(1))
    ensures WF(m) ==> m == m0
  {
    hide WF, Safe, Stranded;
    SafeIff(m);
    if n > 1 {
      assert ps[i + 1] in ps;
      assert OnBuffer(m0, ps[i + 1], m0.bufs[ps[i + 1]].data);
      assert Stranded(m, m0.bufs[ps[i + 1]].data);
    }
  }

  /** A copy under way: `tmp`, netbuf `i`, has been copied, and `left` bytes after it are still wanted. */
  ghost predicate Copying(m0: Mem, m: Mem, ps: seq<Ptr>, head: Ptr, rs: seq<Ptr>, supply: Supply, tmp: Ptr, c: nat, i: nat,
                          k: nat, j: nat, lo: nat, n: nat, left: int) {
    && WF(m0) && lo + n <= |Bytes(m0, ps)| && left <= n
    && Copied(m0, m, ps, head, rs, lo, lo + n - (if left > 0 then left else 0))
    && Aliased(m0, m, ps, rs, j) && i + 1 == j + |rs|
    && At(m0, ps, tmp, c, i, k) && k + m0.bufs[tmp].length - c == lo + n - left
    && Served(supply, |rs|) && Reach(m0, ps, j, lo + n) == |rs| - 1 + Reach(m0, ps, i, lo + n)
    && rs[0] == head && head in m.bufs && m.bufs[head].total == n
  }

  lemma CopyingStart(m0: Mem, m: Mem, ps: seq<Ptr>, head: Ptr, supply: Supply, tmp: Ptr, c: nat, i: nat, lo: nat, n: nat, left: int)
    requires WF(m0) && lo + n <= |Bytes(m0, ps)| && left <= n && supply(0)
    requires Copied(m0, m, ps, head, [head], lo, lo + n - (if left > 0 then left else 0)) && Aliased(m0, m, ps, [head], i)
    requires At(m0, ps, tmp, c, i, lo) && left == n - (m0.bufs[tmp].length - c)
    requires head in m.bufs && m.bufs[head].total == n
    ensures Copying(m0, m, ps, head, [head], supply, tmp, c, i, lo, i, lo, n, left) && i < |ps|
  {
    hide WF, Bytes, At, Copied, Aliased, Reach;
    AtUse(m0, ps, tmp, c, i, lo);
  }

  lemma CopyingUse(m0: Mem, m: Mem, ps: seq<Ptr>, head: Ptr, rs: seq<Ptr>, supply: Supply, tmp: Ptr, c: nat, i: nat,
                   k: nat, j: nat, lo: nat, n: nat, left: int)
    requires Copying(m0, m, ps, head, rs, supply, tmp, c, i, k, j, lo, n, left)
    ensures tmp in m.bufs && m.bufs[tmp] == m0.bufs[tmp] && tmp in m0.bufs
    ensures WF(m) && List(m.bufs, head, rs) && rs != [] && Frame(m0, m, {})
    ensures m.bufs.Keys == m0.bufs.Keys + Elems(rs) && forall x :: x in rs ==> x !in m0.bufs
  {
    hide WF, Bytes, At, Copied, Aliased, Served, Reach, Frame, Seg;
    AtUse(m0, ps, tmp, c, i, k);
    CopiedUse(m0, m, ps, head, rs, lo, lo + n - (if left > 0 then left else 0), tmp);
  }

  /** Memory runs out while bytes are still wanted. */
  lemma CopyingStops(m0: Mem, m: Mem, ps: seq<Ptr>, head: Ptr, rs: seq<Ptr>, supply: Supply, tmp: Ptr, c: nat, i: nat,
                     k: nat, j: nat, lo: nat, n: nat, left: int)
    requires Copying(m0, m, ps, head, rs, supply, tmp, c, i, k, j, lo, n, left) && left > 0 && !supply(|rs|)
    ensures rs != [] && !Served(supply, Reach(m0, ps, j, lo + n)) && Served(supply, |rs|) && |rs| < Reach(m0, ps, j, lo + n)
    ensures Aliased(m0, m, ps, rs, j)
  {
    hide WF, Bytes, At, Copied, Aliased, Served, Reach, Frame, Seg;
    CopyingUse(m0, m, ps, head, rs, supply, tmp, c, i, k, j, lo, n, left);
    AtReach(m0, ps, tmp, c, i, k, lo + n);
    NotServed(supply, |rs|, Reach(m0, ps, j, lo + n));
  }

  lemma GaveUp(m0: Mem, m1: Mem, m: Mem, ps: seq<Ptr>, rs: seq<Ptr>, i: nat, lo: nat, hi: nat, supply: Supply)
    requires m.bufs == m0.bufs && Safe(m) && Frame(m0, m, {}) && (|rs| == 1 ==> m == m0) && rs != []
    requires Aliased(m0, m1, ps, rs, i)
    requires forall d :: Stranded(m, d) <==> exists k: nat :: 1 <= k < |rs| && OnBuffer(m1, rs[k], d)
    requires !Served(supply, Reach(m0, ps, i, hi)) && |rs| < Reach(m0, ps, i, hi) && Served(supply, |rs|) && !supply(|rs|)
    ensures CopyEnds(m0, m, ps, NULL, rs, i, lo, hi, supply)
  {
    hide WF, Safe, Stranded, Frame, Bytes, Copied, Aliased, Served, Reach, OnBuffer;
    forall d ensures Stranded(m, d) <==> exists j: nat :: i < j < i + |rs| && j < |ps| && OnBuffer(m0, ps[j], d) {
      SameBuffers(m0, m1, ps, rs, i, d);
    }
    AliasedCount(m0, m1, ps, rs, i);
  }

  lemma AliasedCount(m0: Mem, m: Mem, ps: seq<Ptr>, rs: seq<Ptr>, i: nat)
    requires Aliased(m0, m, ps, rs, i)
    ensures i + |rs| <= |ps|
  {}

  lemma SameBuffers(m0: Mem, m: Mem, ps: seq<Ptr>, rs: seq<Ptr>, i: nat, d: Ptr)
    requires Aliased(m0, m, ps, rs, i)
    ensures (exists k: nat :: 1 <= k < |rs| && OnBuffer(m, rs[k], d))
       <==> exists j: nat :: i < j < i + |rs| && j < |ps| && OnBuffer(m0, ps[j], d)
  {
    if k: nat :| 1 <= k < |rs| && OnBuffer(m, rs[k], d) {
      assert SameBuffer(m0, ps[i + k], m, rs[k]);
      assert OnBuffer(m0, ps[i + k], d);
    }
    if j: nat :| i < j < i + |rs| && j < |ps| && OnBuffer(m0, ps[j], d) {
      var k: nat := j - i;
      assert SameBuffer(m0, ps[i + k], m, rs[k]);
      assert OnBuffer(m, rs[k], d);
    }
  }

  lemma CopyingMore(m0: Mem, m: Mem, ps: seq<Ptr>, head: Ptr, rs: seq<Ptr>, supply: Supply, tmp: Ptr, c: nat, i: nat,
                    k: nat, j: nat, lo: nat, n: nat, left: int)
    requires Copying(m0, m, ps, head, rs, supply, tmp, c, i, k, j, lo, n, left) && left > 0
    ensures tmp in m.bufs && m.bufs[tmp].next in m.bufs && i + 1 < |ps|
    ensures CopyingOn(m0, m, ps, head, rs, supply, m.bufs[tmp].next, i, j, lo, n, left)
  {
    hide WF, Bytes, At, Copied, Aliased, Served, Reach, Frame, Seg;
    CopyingUse(m0, m, ps, head, rs, supply, tmp, c, i, k, j, lo, n, left);
    var hi, t := lo + n - left, m0.bufs[tmp].next;
    AtReach(m0, ps, tmp, c, i, k, lo + n);
    AtNext(m0, ps, tmp, c, i, k, hi);
    AtUse(m0, ps, t, 0, i + 1, hi);
    CopiedUse(m0, m, ps, head, rs, lo, hi, t);
  }

  /** A copy under way that has come to `t`, netbuf `i + 1`. */
  ghost predicate CopyingOn(m0: Mem, m: Mem, ps: seq<Ptr>, head: Ptr, rs: seq<Ptr>, supply: Supply, t: Ptr, i: nat,
                            j: nat, lo: nat, n: nat, left: int) {
    && WF(m0) && lo + n <= |Bytes(m0, ps)| && 0 < left <= n
    && Copied(m0, m, ps, head, rs, lo, lo + n - left)
    && Aliased(m0, m, ps, rs, j) && i + 1 == j + |rs|
    && At(m0, ps, t, 0, i + 1, lo + n - left) && t in m.bufs
    && Served(supply, |rs|) && Reach(m0, ps, j, lo + n) == |rs| + Reach(m0, ps, i + 1, lo + n)
    && rs[0] == head && head in m.bufs && m.bufs[head].total == n
  }

  lemma CopyingNext(m0: Mem, m: Mem, ps: seq<Ptr>, head: Ptr, rs: seq<Ptr>, supply: Supply, t: Ptr, i: nat,
                    j: nat, lo: nat, n: nat, left: int, x: Ptr, cur: nat)
    requires CopyingOn(m0, m, ps, head, rs, supply, t, i, j, lo, n, left) && supply(|rs|)
    requires x != NULL && x !in m.bufs && t in m.bufs
    requires cur == if left - m.bufs[t].length < 0 then left else m.bufs[t].length
    ensures m.bufs[t].data in m.datas && rs != []
    ensures var m1 := Share(m, x, Part(m.bufs[t], 0, cur, 0));
            && Part(m.bufs[t], 0, cur, 0).data in m.datas && rs[|rs| - 1] in m1.bufs
            && Copying(m0, Edit(m1, rs[|rs| - 1], m1.bufs[rs[|rs| - 1]].(next := x)), ps, head, rs + [x], supply, t, 0, i + 1,
                       lo + n - left, j, lo, n, left - m.bufs[t].length)
  {
    hide WF, Bytes, At, Copied, Aliased, Served, Reach, Frame, Seg;
    var hi := lo + n - left;
    ServedOne(supply, |rs|);
    AtUse(m0, ps, t, 0, i + 1, hi);
    CopiedUse(m0, m, ps, head, rs, lo, hi, t);
    CopiedNext(m0, m, ps, t, i + 1, lo, hi, cur, head, rs, x);
    AliasedNext(m0, m, ps, rs, j, x, Part(m.bufs[t], 0, cur, 0));
  }

  lemma CopiedHead(m0: Mem, m: Mem, head: Ptr, n: nat, part: NetBuf)
    requires part.data in m0.datas && m == Share(m0, head, part) && part.total == n
    ensures head in m.bufs && m.bufs[head].total == n
    ensures exists n: NetBuf :: n.data in m0.datas && m == Share(m0, head, n)
  {}

  lemma CopyingDone(m0: Mem, m: Mem, ps: seq<Ptr>, head: Ptr, rs: seq<Ptr>, supply: Supply, tmp: Ptr, c: nat, i: nat,
                    k: nat, j: nat, lo: nat, n: nat, left: int)
    requires Copying(m0, m, ps, head, rs, supply, tmp, c, i, k, j, lo, n, left) && left <= 0
    ensures CopyEnds(m0, m, ps, head, rs, j, lo, lo + n, supply)
  {
    hide WF, Bytes, At, Copied, Aliased, Served, Reach, Frame, Seg, Chain;
    AtUse(m0, ps, tmp, c, i, k);
    AtReach(m0, ps, tmp, c, i, k, lo + n);
    CopiedChain(m0, m, ps, head, rs, lo, lo + n);
  }

  lemma NothingMade(m: Mem, ps: seq<Ptr>, i: nat)
    requires WF(m) && i <= |ps|
    ensures Abandoned(m, m, ps, i, 0)
  {
    hide WF, Safe, Stranded, Frame;
    SafeIff(m);
    FrameSelf(m);
  }

  lemma NoneServed(supply: Supply, n: nat)
    requires !supply(0) && n > 0
    ensures !Served(supply, n)
  {}

  lemma NotServed(supply: Supply, k: nat, n: nat)
    requires Served(supply, k) && !supply(k) && 1 <= k < n
    ensures !Served(supply, n) && (k == 1 <==> !(supply(0) && supply(1)))
  {}

  lemma AtHolds(m: Mem, ps: seq<Ptr>, tmp: Ptr, at: nat, i: nat, k: nat)
    requires WF(m) && At(m, ps, tmp, at, i, k) && at < m.bufs[tmp].length
    ensures Holds(m, ps, i, k)
  {
    hide WF, Bytes;
    BytesAt(m, ps, i);
    WindowLen(m, tmp);
  }

  lemma AtReach(m: Mem, ps: seq<Ptr>, tmp: Ptr, at: nat, i: nat, k: nat, hi: nat)
    requires WF(m) && At(m, ps, tmp, at, i, k) && hi <= |Bytes(m, ps)|
    ensures var e := k + m.bufs[tmp].length - at;
            if e < hi then i + 1 < |ps| && Reach(m, ps, i, hi) == 1 + Reach(m, ps, i + 1, hi) > 1 else Reach(m, ps, i, hi) == 1
  {
    hide WF, Bytes;
    BytesAt(m, ps, i);
    WindowLen(m, tmp);
    if k + m.bufs[tmp].length - at < hi {
      ReachStep(m, ps, i, hi);
    }
  }

  lemma CopiedUse(m0: Mem, m: Mem, ps: seq<Ptr>, head: Ptr, rs: seq<Ptr>, lo: nat, hi: nat, tmp: Ptr)
    requires Copied(m0, m, ps, head, rs, lo, hi) && tmp in m0.bufs
    ensures tmp in m.bufs && m.bufs[tmp] == m0.bufs[tmp] && m.bufs[tmp].data in m.datas
    ensures WF(m) && List(m.bufs, head, rs) && rs != [] && Frame(m0, m, {})
    ensures m.bufs.Keys == m0.bufs.Keys + Elems(rs) && forall x :: x in rs ==> x !in m0.bufs
  {}

  lemma CopiedChain(m0: Mem, m: Mem, ps: seq<Ptr>, head: Ptr, rs: seq<Ptr>, lo: nat, hi: nat)
    requires Copied(m0, m, ps, head, rs, lo, hi) && head in m.bufs && m.bufs[head].total == hi - lo
    ensures Chain(m, head, rs) && head != NULL
  {}

  lemma Unused(s: set<Ptr>)
    ensures exists p: Ptr :: p != NULL && p !in s
  {
    var b := Bound(s);
    assert b + 1 !in s;
  }

  lemma {:induction false} Bound(s: set<Ptr>) returns (b: Ptr)
    ensures forall p :: p in s ==> p <= b
    decreases |s|
  {
    if s == {} {
      b := 0;
    } else {
      var p :| p in s;
      var c := Bound(s - {p});
      b := if p <= c then c else p;
      assert forall q :: q in s ==> q == p || q in s - {p};
    }
  }

  lemma ElemsStep(ps: seq<Ptr>, i: nat)
    requires i < |ps|
    ensures Elems(ps[..i + 1]) == Elems(ps[..i]) + {ps[i]}
  {
    assert ps[..i + 1] == ps[..i] + [ps[i]];
  }

  lemma ListHead(bufs: map<Ptr, NetBuf>, p: Ptr, ps: seq<Ptr>)
    requires List(bufs, p, ps)
    ensures p != NULL <==> ps != []
    ensures p != NULL ==> ps[0] == p && p in bufs
  {}

  /** Freeing the head leaves the rest of the list. */
  lemma ListTail(bufs: map<Ptr, NetBuf>, bufs': map<Ptr, NetBuf>, p: Ptr, ps: seq<Ptr>)
    requires List(bufs, p, ps) && ps != [] && bufs' == bufs - {p}
    ensures List(bufs', bufs[p].next, ps[1..])
  {
    ListDistinct(bufs, p, ps);
    SegIn(bufs, p, ps, NULL);
    SegSame(bufs, bufs', bufs[p].next, ps[1..], NULL);
  }

  /** The node after the first `i`, in a memory where those are gone. */
  lemma FrontLen(m0: Mem, m: Mem, nb: Ptr, ps: seq<Ptr>, i: nat)
    requires WF(m0) && List(m0.bufs, nb, ps) && i < |ps| && Frame(m0, m, Elems(ps[..i]))
    ensures ps[i] in m.bufs && ps[i] in m0.bufs && m.bufs[ps[i]] == m0.bufs[ps[i]]
    ensures |Bytes(m0, ps[..i + 1])| == |Bytes(m0, ps[..i])| + m.bufs[ps[i]].length
  {
    hide WF, Bytes, Window;
    ListDistinct(m0.bufs, nb, ps);
    SegAt(m0.bufs, nb, ps, NULL, i);
    BytesAt(m0, ps, i);
    WindowLen(m0, ps[i]);
  }

  lemma FrontBytes(m0: Mem, m: Mem, nb: Ptr, ps: seq<Ptr>, i: nat)
    requires List(m0.bufs, nb, ps) && i <= |ps| && Frame(m0, m, Elems(ps[..i]))
    ensures Bytes(m, ps[i..]) == Bytes(m0, ps[i..])
    ensures Bytes(m0, ps) == Bytes(m0, ps[..i]) + Bytes(m0, ps[i..])
  {
    hide Bytes, Frame;
    ListDistinct(m0.bufs, nb, ps);
    SegSplit(m0.bufs, nb, ps, NULL, i);
    assert ps == ps[..i] + ps[i..];
    BytesConcat(m0, ps[..i], ps[i..]);
    ElemsApart(ps, i);
    assert forall x :: x in ps[i..] ==> x in Elems(ps[i..]);
    FrameBytes(m0, m, Elems(ps[..i]), if i < |ps| then ps[i] else NULL, ps[i..], NULL);
  }

  lemma FrontFrame(m0: Mem, m1: Mem, m: Mem, ps: seq<Ptr>, i: nat)
    requires i <= |ps| && Frame(m0, m1, Elems(ps[..i])) && (m == m1 || (i < |ps| && Frame(m1, m, {ps[i]})))
    ensures Frame(m0, m, Elems(ps))
  {
    assert Elems(ps[..i]) <= Elems(ps);
    if m != m1 {
      FrameTrans(m0, m1, m, Elems(ps[..i]), {ps[i]}, Elems(ps));
    }
  }

  lemma SuffixSlice<T>(a: seq<T>, b: seq<T>, k: nat)
    requires k <= |b|
    ensures (a + b)[|a| + k..] == b[k..]
  {}

  /** Moving the start of a netbuf's window. */
  lemma CutFront(m: Mem, p: Ptr, ps: seq<Ptr>, cut: nat, total: nat)
    requires WF(m) && List(m.bufs, p, ps) && p in m.bufs && cut <= m.bufs[p].length
    ensures var n := m.bufs[p]; var m' := Edit(m, p, n.(off := n.off + cut, length := n.length - cut, total := total));
            && WF(m') && List(m'.bufs, p, ps) && |Bytes(m, ps)| >= cut && Bytes(m', ps) == Bytes(m, ps)[cut..]
            && Frame(m, m', {p}) && m'.bufs.Keys == m.bufs.Keys
  {
    hide WF, Frame, Bytes, Window, Distinct, Seg;
    var n := m.bufs[p].(off := m.bufs[p].off + cut, length := m.bufs[p].length - cut, total := total);
    var m' := Edit(m, p, n);
    WindowLen(m, p);
    WindowSlice(m, p);
    EditOk(m, p, n);
    ListHead(m.bufs, p, ps);
    ListDistinct(m.bufs, p, ps);
    SegAt(m.bufs, p, ps, NULL, 0);
    NotAfter(ps);
    SegIn(m.bufs, p, ps, NULL);
    SegSame(m.bufs, m'.bufs, p, ps, NULL);
    FrameSeg(m, m', {p}, m.bufs[p].next, ps[1..], NULL);
    BytesHead(m, ps);
    BytesHead(m', ps);
    SliceRest(m.datas[n.data].bytes, m.bufs[p].off, m.bufs[p].length, cut);
    ConcatRest(Window(m, p), Bytes(m, ps[1..]), cut);
  }

  lemma NotAfter(ps: seq<Ptr>)
    requires Distinct(ps) && ps != []
    ensures forall x :: x in ps[1..] ==> x != ps[0]
  {}

  lemma SliceRest<T>(s: seq<T>, a: nat, n: nat, k: nat)
    requires k <= n && a + n <= |s|
    ensures s[a..a + n][k..] == s[a + k..a + n]
  {}

  lemma ConcatRest<T>(a: seq<T>, b: seq<T>, k: nat)
    requires k <= |a|
    ensures (a + b)[k..] == a[k..] + b
  {}

  /** The netbufs after the first of `qs` and before the `j`-th are gone. */
  ghost predicate Trimmed(m0: Mem, m: Mem, qs: seq<Ptr>, j: nat) {
    && 1 <= j <= |qs| && qs[0] in m.bufs && qs[0] in m0.bufs
    && WF(m) && m.bufs.Keys == m0.bufs.Keys - Elems(qs[1..j]) && Frame(m0, m, Elems(qs))
    && m.bufs[qs[0]] == m0.bufs[qs[0]].(next := m.bufs[qs[0]].next) && Window(m, qs[0]) == Window(m0, qs[0])
    && List(m.bufs, m.bufs[qs[0]].next, qs[j..]) && Distinct(qs)
  }

  lemma NextsInit(m: Mem, qs: seq<Ptr>)
    requires WF(m) && qs != [] && List(m.bufs, qs[0], qs)
    ensures Trimmed(m, m, qs, 1)
  {
    ListDistinct(m.bufs, qs[0], qs);
    assert Elems(qs[1..1]) == {};
  }

  lemma NextsUse(m0: Mem, m: Mem, qs: seq<Ptr>, j: nat)
    requires Trimmed(m0, m, qs, j)
    ensures WF(m) && qs[0] in m.bufs
    ensures m.bufs[qs[0]].next != NULL ==> j < |qs| && qs[j] == m.bufs[qs[0]].next && qs[j] in m.bufs && qs[j] != qs[0]
  {}

  lemma NextsStep(m0: Mem, m1: Mem, m2: Mem, qs: seq<Ptr>, j: nat, next: Ptr)
    requires Trimmed(m0, m1, qs, j) && j < |qs| && qs[j] == m1.bufs[qs[0]].next && qs[j] in m1.bufs
    requires WF(m2) && m2.bufs == m1.bufs - {qs[j]} && Frame(m1, m2, {qs[j]}) && next == m1.bufs[qs[j]].next
    ensures qs[0] in m2.bufs
    ensures Trimmed(m0, Edit(m2, qs[0], m2.bufs[qs[0]].(next := next)), qs, j + 1)
  {
    hide Counted, NodesOk, Frame, Window, Seg, Bytes, Distinct, Elems;
    FirstNotLater(qs, j);
    FrameAt(m1, m2, {qs[j]}, qs[0]);
    ListTail(m1.bufs, m2.bufs, qs[j], qs[j..]);
    assert qs[j..][1..] == qs[j + 1..];
    var m3 := Edit(m2, qs[0], m2.bufs[qs[0]].(next := next));
    LinkOk(m2, qs[0], m2.bufs[qs[0]].(next := next));
    ShowsAt(m2, m3, qs[0]);
    SegIn(m2.bufs, next, qs[j + 1..], NULL);
    SegSame(m2.bufs, m3.bufs, next, qs[j + 1..], NULL);
    FrameTrans(m0, m1, m2, Elems(qs), {qs[j]}, Elems(qs));
    FrameTrans(m0, m2, m3, Elems(qs), {qs[0]}, Elems(qs));
  }

  lemma ShowsAt(m: Mem, m': Mem, p: Ptr)
    requires Shows(m, m') && p in m.bufs
    ensures Window(m', p) == Window(m, p)
  {}

  lemma FirstNotLater(qs: seq<Ptr>, j: nat)
    requires Distinct(qs) && 1 <= j < |qs|
    ensures qs[0] != qs[j] && qs[0] !in qs[j + 1..] && qs[0] in Elems(qs) && qs[j] in Elems(qs)
    ensures Elems(qs[1..j + 1]) == Elems(qs[1..j]) + {qs[j]}
  {
    assert qs[1..j + 1] == qs[1..j] + [qs[j]];
  }

  lemma NextsEnd(m0: Mem, m: Mem, qs: seq<Ptr>, j: nat)
    requires Trimmed(m0, m, qs, j) && m.bufs[qs[0]].next == NULL
    ensures j == |qs| && qs[1..j] == qs[1..] && WF(m) && Frame(m0, m, Elems(qs))
    ensures m.bufs.Keys == m0.bufs.Keys - Elems(qs[1..]) && Window(m, qs[0]) == Window(m0, qs[0])
    ensures m.bufs[qs[0]] == m0.bufs[qs[0]].(next := NULL)
  {}

  /** The netbuf where the kept bytes end is shortened to them. */
  lemma CutBack(m: Mem, nb: Ptr, ps: seq<Ptr>, i: nat, keep: nat)
    requires WF(m) && List(m.bufs, nb, ps) && i < |ps| && ps[i] in m.bufs
    requires |Bytes(m, ps[..i])| <= keep <= |Bytes(m, ps[..i])| + m.bufs[ps[i]].length
    ensures var n := m.bufs[ps[i]].(length := keep - |Bytes(m, ps[..i])|);
            var m1 := Edit(m, ps[i], n);
            && WF(m1) && List(m1.bufs, nb, ps) && List(m1.bufs, ps[i], ps[i..]) && Frame(m, m1, {ps[i]})
            && m1.bufs.Keys == m.bufs.Keys && keep <= |Bytes(m, ps)|
            && Bytes(m, ps[..i]) + Window(m1, ps[i]) == Bytes(m, ps)[..keep]
  {
    hide Counted, NodesOk, Frame, Bytes, Window, Seg;
    var n := m.bufs[ps[i]].(length := keep - |Bytes(m, ps[..i])|);
    var m1 := Edit(m, ps[i], n);
    WindowLen(m, ps[i]);
    WindowSlice(m, ps[i]);
    EditOk(m, ps[i], n);
    SegIn(m.bufs, nb, ps, NULL);
    SegSame(m.bufs, m1.bufs, nb, ps, NULL);
    SegAt(m1.bufs, nb, ps, NULL, i);
    BytesAt(m, ps, i);
  }

  /** After the following netbufs are freed the list ends at node `i`. */
  lemma BackDone(m0: Mem, m1: Mem, m: Mem, nb: Ptr, ps: seq<Ptr>, i: nat, keep: nat)
    requires List(m0.bufs, nb, ps) && List(m1.bufs, nb, ps) && i < |ps| && keep <= |Bytes(m0, ps)|
    requires Frame(m0, m1, {ps[i]}) && m1.bufs.Keys == m0.bufs.Keys
    requires Bytes(m0, ps[..i]) + Window(m1, ps[i]) == Bytes(m0, ps)[..keep]
    requires Frame(m1, m, Elems(ps[i..])) && m.bufs.Keys == m1.bufs.Keys - Elems(ps[i..][1..])
    requires ps[i] in m.bufs && ps[i] in m1.bufs && m.bufs[ps[i]] == m1.bufs[ps[i]].(next := NULL)
    requires Window(m, ps[i]) == Window(m1, ps[i])
    ensures List(m.bufs, nb, ps[..i + 1]) && Bytes(m, ps[..i + 1]) == Bytes(m0, ps)[..keep]
    ensures Frame(m0, m, Elems(ps)) && m.bufs.Keys == m0.bufs.Keys - Elems(ps[i + 1..])
    ensures nb in m.bufs && nb == ps[0]
  {
    hide Frame, Bytes, Window, Distinct, Elems;
    SegAt(m0.bufs, nb, ps, NULL, i);
    SegAt(m1.bufs, nb, ps, NULL, i);
    ListDistinct(m0.bufs, nb, ps);
    ElemsApart(ps, i);
    ElemsParts(ps, i);
    FrameSeg(m0, m1, {ps[i]}, nb, ps[..i], ps[i]);
    FrameSeg(m1, m, Elems(ps[i..]), nb, ps[..i], ps[i]);
    SegJoin(m.bufs, nb, ps[..i], ps[i], [ps[i]], NULL);
    assert ps[..i] + [ps[i]] == ps[..i + 1];
    BytesAt(m, ps, i);
    FrameTrans(m0, m1, m, {ps[i]}, Elems(ps[i..]), Elems(ps));
    ListHead(m.bufs, nb, ps[..i + 1]);
  }

  lemma ElemsParts(ps: seq<Ptr>, i: nat)
    requires i < |ps|
    ensures ps[i] in Elems(ps[i..]) && Elems(ps[i..]) <= Elems(ps) && ps[i] in Elems(ps)
    ensures ps[i..][1..] == ps[i + 1..]
    ensures forall x :: x in ps[..i] ==> x in Elems(ps[..i])
  {
    assert ps[i..][0] == ps[i];
  }

  /** A netbuf is left empty only when nothing is kept, and then it is the head. */
  lemma OnlyHead(m: Mem, ps: seq<Ptr>, i: nat, keep: nat)
    requires WF(m) && i < |ps| && ps[i] in m.bufs && m.bufs[ps[i]].length == 0 && |Bytes(m, ps[..i + 1])| == keep
    requires i > 0 ==> |Bytes(m, ps[..i])| < keep
    ensures i == 0 && keep == 0
  {
    hide Counted, Bytes;
    BytesAt(m, ps, i);
    WindowLen(m, ps[i]);
    BytesNil(m);
  }

  lemma BackEmpty(m0: Mem, m1: Mem, m: Mem, ps: seq<Ptr>)
    requires ps != [] && Frame(m0, m1, Elems(ps)) && m1.bufs.Keys == m0.bufs.Keys - Elems(ps[1..])
    requires Frame(m1, m, {ps[0]}) && m.bufs == m1.bufs - {ps[0]}
    ensures Frame(m0, m, Elems(ps)) && m.bufs.Keys == m0.bufs.Keys - Elems(ps)
  {
    assert Elems(ps) == {ps[0]} + Elems(ps[1..]);
    FrameTrans(m0, m1, m, Elems(ps), {ps[0]}, Elems(ps));
  }

  lemma EmptyChain(m: Mem)
    ensures Chain(m, NULL, []) && Bytes(m, []) == []
  {}

  lemma BackTotal(m0: Mem, m: Mem, nb: Ptr, ps: seq<Ptr>, n: NetBuf)
    requires ps != [] && nb == ps[0] && Frame(m0, m, Elems(ps)) && Frame(m, Edit(m, nb, n), {nb})
    ensures Frame(m0, Edit(m, nb, n), Elems(ps))
  {
    assert nb in Elems(ps);
    FrameTrans(m0, m, Edit(m, nb, n), Elems(ps), {nb}, Elems(ps));
  }

  lemma KeptBack(bufs: map<Ptr, NetBuf>, p: Ptr, ps: seq<Ptr>, i: nat)
    requires List(bufs, p, ps) && i <= |ps|
    ensures Elems(ps[..i]) == Elems(ps) - Elems(ps[i..]) && Elems(ps[i..]) <= Elems(ps)
  {
    ListDistinct(bufs, p, ps);
    ElemsApart(ps, i);
    assert ps == ps[..i] + ps[i..];
  }

  lemma KeptFront(bufs: map<Ptr, NetBuf>, p: Ptr, ps: seq<Ptr>, i: nat)
    requires List(bufs, p, ps) && i <= |ps|
    ensures Elems(ps[i..]) == Elems(ps) - Elems(ps[..i]) && Elems(ps[..i]) <= Elems(ps)
  {
    ListDistinct(bufs, p, ps);
    ElemsApart(ps, i);
    assert ps == ps[..i] + ps[i..];
  }

  lemma RelinkedSelf(m: Mem)
    ensures Relinked(m, m)
  {}

  lemma RelinkedEdit(m: Mem, p: Ptr, n: NetBuf)
    requires WF(m) && p in m.bufs && SameWindow(m.bufs[p], n) && n.nextChain == m.bufs[p].nextChain
    ensures Relinked(m, Edit(m, p, n))
  {
    hide WF;
    LinkOk(m, p, n);
  }

  lemma RelinkedTrans(m0: Mem, m1: Mem, m2: Mem)
    requires Relinked(m0, m1) && Relinked(m1, m2)
    ensures Relinked(m0, m2)
  {}

  /** The totals the heads hold after the lists are joined, before the first is raised. */
  lemma JoinTotals(m0: Mem, m1: Mem, p: Ptr, ps: seq<Ptr>, q: Ptr, qs: seq<Ptr>)
    requires Chain(m0, p, ps) && Chain(m0, q, qs) && p != NULL && q != NULL && ps != []
    requires ps[|ps| - 1] in m0.bufs && m1 == Edit(m0, ps[|ps| - 1], m0.bufs[ps[|ps| - 1]].(next := q))
    requires Elems(ps) !! Elems(qs)
    ensures p in m1.bufs && q in m1.bufs
    ensures m1.bufs[p].total == |Bytes(m0, ps)| && m1.bufs[q].total == |Bytes(m0, qs)|
  {
    hide Bytes;
    ListHead(m0.bufs, p, ps);
    ListHead(m0.bufs, q, qs);
    assert q in Elems(qs) && ps[|ps| - 1] in Elems(ps);
  }

  lemma JoinFrame(m0: Mem, m1: Mem, m: Mem, p: Ptr, ps: seq<Ptr>)
    requires ps != [] && p == ps[0] && Frame(m0, m1, {ps[|ps| - 1]}) && Frame(m1, m, {p})
    ensures Frame(m0, m, Elems(ps))
  {
    FrameTrans(m0, m1, m, {ps[|ps| - 1]}, {p}, Elems(ps));
  }

  /** A list names different netbufs at different places. */
  lemma NotYet(m: Mem, ps: seq<Ptr>, j: nat, e: nat)
    requires ps != [] && List(m.bufs, ps[0], ps) && j <= e < |ps| && ps[j] != ps[e]
    ensures j < e
  {}

  lemma AtEnd(m: Mem, ps: seq<Ptr>, j: nat, e: nat)
    requires ps != [] && List(m.bufs, ps[0], ps) && j <= e < |ps| && ps[j] == ps[e]
    ensures j == e
  {
    ListDistinct(m.bufs, ps[0], ps);
  }

  lemma TakeSlice<T>(s: seq<T>, a: nat, n: nat, t: nat)
    requires t <= n && a + n <= |s|
    ensures s[a..a + n][..t] == s[a..a + t]
  {}

  lemma ElemsWithin(m: Mem, nb: Ptr, ps: seq<Ptr>)
    requires List(m.bufs, nb, ps)
    ensures Elems(ps) <= m.bufs.Keys
  {
    SegIn(m.bufs, nb, ps, NULL);
  }
}
