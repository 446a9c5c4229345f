/** Reassembly over runs: every chain accounted for, lists dying of age, and fragments giving the datagram back. */
module ReassemblyRuns {
  import opened Words
  import opened Wrappers
  import opened IpFragments
  import opened Reassembly

  // ----- fragments of one datagram on a ring

  /** The fragments with indices `idx`, as held. */
  function HeldAll(fs: seq<Packet>, nbs: seq<nat>, idx: seq<nat>): (r: seq<Frag>)
    requires |nbs| == |fs| && forall k :: 0 <= k < |idx| ==> idx[k] < |fs|
    ensures |r| == |idx| && forall k :: 0 <= k < |idx| ==> r[k] == Held(fs[idx[k]], nbs[idx[k]])
  {
    if idx == [] then [] else HeldAll(fs, nbs, idx[..|idx| - 1]) + [Held(fs[idx[|idx| - 1]], nbs[idx[|idx| - 1]])]
  }

  ghost predicate Ascending(idx: seq<nat>, m: nat) {
    && (forall k :: 0 <= k < |idx| ==> idx[k] < m)
    && (forall j, k :: 0 <= j < k < |idx| ==> idx[j] < idx[k])
  }

  function FirstN(n: nat): (s: seq<nat>)
    ensures |s| == n && forall k :: 0 <= k < n ==> s[k] == k
  {
    if n == 0 then [] else FirstN(n - 1) + [n - 1]
  }

  /** Later fragments begin where earlier ones have ended. */
  lemma {:induction false} OffsetsAscend(d: Packet, fs: seq<Packet>, i: nat, j: nat)
    requires Fragmentation(d, fs) && i < j < |fs|
    ensures OffsetOf(fs[i].ffo) + |fs[i].payload| <= OffsetOf(fs[j].ffo)
    ensures OffsetOf(fs[i].ffo) < OffsetOf(fs[j].ffo)
    decreases j
  {
    hide HasMF, OffsetOf;
    var k := j - 1;
    assert Piece(d, fs[k], k + 1 < |fs|) && Piece(d, fs[i], i + 1 < |fs|);
    assert OffsetOf(fs[k + 1].ffo) == OffsetOf(fs[k].ffo) + |fs[k].payload|;
    if i < k {
      OffsetsAscend(d, fs, i, k);
    }
  }

  /** Fragment `i`, and where the next one begins. */
  lemma PieceAt(d: Packet, fs: seq<Packet>, i: nat)
    requires Fragmentation(d, fs) && i < |fs|
    ensures var lo := OffsetOf(fs[i].ffo);
            var hi := if i + 1 < |fs| then OffsetOf(fs[i + 1].ffo) else |d.payload|;
            && lo < hi <= |d.payload| && fs[i].payload == d.payload[lo..hi] && (i == 0 ==> lo == 0)
    ensures fs[i].tos == d.tos && fs[i].key == d.key && fs[i].hlen == HEADER && HasMF(fs[i].ffo) == (i + 1 < |fs|)
    ensures fs[i].total == HEADER + |fs[i].payload| && 0 < |fs[i].payload|
  {
    hide HasMF, OffsetOf;
    assert Piece(d, fs[i], i + 1 < |fs|);
    if i + 1 < |fs| {
      var j := i + 1;
      assert Piece(d, fs[j], j + 1 < |fs|);
    }
  }

  lemma HeldPrefix(fs: seq<Packet>, nbs: seq<nat>, k: nat)
    requires |nbs| == |fs| && k < |fs|
    ensures var rs := HeldAll(fs, nbs, FirstN(k + 1));
            rs[..k] == HeldAll(fs, nbs, FirstN(k)) && rs[k] == Held(fs[k], nbs[k])
  {
    assert HeldAll(fs, nbs, FirstN(k + 1))[..k] == HeldAll(fs, nbs, FirstN(k));
  }

  /** One more fragment on a ring. */
  lemma PayloadsUpTo(rs: seq<Frag>, k: nat)
    requires k < |rs|
    ensures Payloads(rs[..k + 1]) == Payloads(rs[..k]) + rs[k].payload && Chains(rs[..k + 1]) == Chains(rs[..k]) + [rs[k].nb]
  {
    assert rs[..k + 1][..k] == rs[..k];
  }

  lemma HeldMore(fs: seq<Packet>, nbs: seq<nat>, k: nat)
    requires |nbs| == |fs| && k < |fs|
    ensures Payloads(HeldAll(fs, nbs, FirstN(k + 1))) == Payloads(HeldAll(fs, nbs, FirstN(k))) + fs[k].payload
    ensures Chains(HeldAll(fs, nbs, FirstN(k + 1))) == Chains(HeldAll(fs, nbs, FirstN(k))) + [nbs[k]]
  {
    hide HasMF, OffsetOf, HeldAll, FirstN, Payloads, Chains, Held;
    HeldPrefix(fs, nbs, k);
    var rs := HeldAll(fs, nbs, FirstN(k + 1));
    assert rs[..k + 1] == rs;
    PayloadsUpTo(rs, k);
    HeldFields(fs[k], nbs[k]);
  }

  lemma SliceMore<T>(s: seq<T>, a: nat, b: nat)
    requires a <= b <= |s|
    ensures s[..a] + s[a..b] == s[..b]
  {}

  /** The first `k` fragments show the payload up to where the next one begins. */
  lemma {:induction false} PrefixPayload(d: Packet, fs: seq<Packet>, nbs: seq<nat>, k: nat)
    requires Fragmentation(d, fs) && |nbs| == |fs| && k <= |fs|
    ensures var n := if k < |fs| then OffsetOf(fs[k].ffo) else |d.payload|;
            n <= |d.payload| && Payloads(HeldAll(fs, nbs, FirstN(k))) == d.payload[..n]
    ensures Chains(HeldAll(fs, nbs, FirstN(k))) == nbs[..k]
  {
    hide HasMF, OffsetOf, Fragmentation, HeldAll, FirstN, Payloads, Chains;
    if k == 0 {
      NonEmpty(d, fs);
      PieceAt(d, fs, 0);
      NoneHeld(fs, nbs);
      assert d.payload[..0] == [] && nbs[..0] == [];
    } else {
      PrefixPayload(d, fs, nbs, k - 1);
      PieceAt(d, fs, k - 1);
      HeldMore(fs, nbs, k - 1);
      SliceMore(d.payload, OffsetOf(fs[k - 1].ffo), if k < |fs| then OffsetOf(fs[k].ffo) else |d.payload|);
      SliceMore(nbs, k - 1, k);
      assert nbs[k - 1..k] == [nbs[k - 1]];
    }
  }

  lemma NonEmpty(d: Packet, fs: seq<Packet>)
    requires Fragmentation(d, fs)
    ensures |fs| > 0
  {}

  lemma NoneHeld(fs: seq<Packet>, nbs: seq<nat>)
    requires |nbs| == |fs|
    ensures HeldAll(fs, nbs, FirstN(0)) == [] && Payloads([]) == [] && Chains([]) == []
  {}

  lemma HeldFields(p: Packet, nb: nat)
    ensures Held(p, nb).payload == p.payload && Held(p, nb).nb == nb && Held(p, nb).offset == OffsetOf(p.ffo)
    ensures Held(p, nb).hlen == p.hlen
  {}

  /** A contiguous ring of fragments of `d` starts with the first ones. */
  lemma {:induction false} ContiguousIsPrefix(d: Packet, fs: seq<Packet>, nbs: seq<nat>, idx: seq<nat>, k: nat)
    requires Fragmentation(d, fs) && |nbs| == |fs| && Ascending(idx, |fs|) && k <= |idx|
    requires forall i :: 0 <= i < k ==> HeldAll(fs, nbs, idx)[i].offset == |Payloads(HeldAll(fs, nbs, idx)[..i])|
    ensures idx[..k] == FirstN(k) && k <= |fs|
  {
    hide HasMF, OffsetOf, Fragmentation, Held, Payloads, Chains, HeldAll, FirstN;
    if k == 0 {
      FirstPrefix(0, 0);
      assert idx[..0] == [];
    } else {
      ContiguousIsPrefix(d, fs, nbs, idx, k - 1);
      SameHeld(fs, nbs, idx, k - 1);
      PrefixPayload(d, fs, nbs, k - 1);
      var x := idx[k - 1];
      HeldAt(fs, nbs, idx, k - 1);
      HeldFields(fs[x], nbs[x]);
      FirstNext(k - 1);
      NextIndex(d, fs, idx, k - 1);
      assert idx[..k] == idx[..k - 1] + [x];
    }
  }

  lemma FirstPrefix(n: nat, i: nat)
    requires i <= n
    ensures FirstN(n)[..i] == FirstN(i) && |FirstN(n)| == n && (i < n ==> FirstN(n)[i] == i) && FirstN(0) == []
    ensures forall k :: 0 <= k < n ==> FirstN(n)[k] < n
  {}

  lemma FirstNext(n: nat)
    ensures FirstN(n + 1) == FirstN(n) + [n]
  {}

  lemma SameHeld(fs: seq<Packet>, nbs: seq<nat>, idx: seq<nat>, k: nat)
    requires |nbs| == |fs| && k <= |idx| && (forall i :: 0 <= i < |idx| ==> idx[i] < |fs|) && idx[..k] == FirstN(k)
    ensures HeldAll(fs, nbs, idx)[..k] == HeldAll(fs, nbs, FirstN(k))
  {
    assert forall i :: 0 <= i < k ==> idx[i] == idx[..k][i];
  }

  /** The fragment that begins where the first `k` end is number `k`. */
  lemma NextIndex(d: Packet, fs: seq<Packet>, idx: seq<nat>, k: nat)
    requires Fragmentation(d, fs) && Ascending(idx, |fs|) && k < |idx| && idx[..k] == FirstN(k)
    requires OffsetOf(fs[idx[k]].ffo) == if k < |fs| then OffsetOf(fs[k].ffo) else |d.payload|
    ensures idx[k] == k
  {
    hide HasMF, OffsetOf, Fragmentation;
    var x := idx[k];
    assert k > 0 ==> idx[k - 1] == idx[..k][k - 1];
    assert x >= k;
    PieceAt(d, fs, x);
    if k < x {
      OffsetsAscend(d, fs, k, x);
    }
  }

  /** The ring of some fragments of `d` is complete exactly when all are there and the type of service is even. */
  lemma CompleteIffAll(d: Packet, fs: seq<Packet>, nbs: seq<nat>, idx: seq<nat>)
    requires Fragmentation(d, fs) && |nbs| == |fs| && Ascending(idx, |fs|) && idx != []
    ensures Complete(HeldAll(fs, nbs, idx)) <==> idx == FirstN(|fs|) && d.tos % 2 == 0
  {
    hide HasMF, OffsetOf, Fragmentation, Payloads, FirstN, HeldAll;
    var rs, l := HeldAll(fs, nbs, idx), |idx| - 1;
    assert rs[l] == Held(fs[idx[l]], nbs[idx[l]]) by { HeldAt(fs, nbs, idx, l); }
    PieceAt(d, fs, idx[l]);
    HeldTos(fs[idx[l]], nbs[idx[l]]);
    if Contiguous(rs) {
      ContiguousIsPrefix(d, fs, nbs, idx, |idx|);
      assert idx[..|idx|] == idx;
      LastOf(idx, l);
    }
    if idx == FirstN(|fs|) {
      AllContiguous(d, fs, nbs);
      LastOf(idx, l);
    }
  }

  lemma HeldAt(fs: seq<Packet>, nbs: seq<nat>, idx: seq<nat>, k: nat)
    requires |nbs| == |fs| && k < |idx| && forall i :: 0 <= i < |idx| ==> idx[i] < |fs|
    ensures HeldAll(fs, nbs, idx)[k] == Held(fs[idx[k]], nbs[idx[k]]) && |HeldAll(fs, nbs, idx)| == |idx|
  {}

  lemma LastOf(idx: seq<nat>, l: nat)
    requires idx == FirstN(|idx|) && |idx| == l + 1
    ensures idx[l] == l
    ensures forall m :: idx == FirstN(m) ==> m == l + 1
  {}

  /** The low bit of a held type of service is the more-fragments flag, or was set already. */
  lemma HeldTos(p: Packet, nb: nat)
    ensures Held(p, nb).tos % 2 == 0 <==> p.tos % 2 == 0 && !HasMF(p.ffo)
  {}

  lemma AllContiguous(d: Packet, fs: seq<Packet>, nbs: seq<nat>)
    requires Fragmentation(d, fs) && |nbs| == |fs|
    ensures Contiguous(HeldAll(fs, nbs, FirstN(|fs|)))
  {
    hide HasMF, OffsetOf, Fragmentation, Payloads, Chains, Held, HeldAll, FirstN;
    FirstPrefix(|fs|, 0);
    var rs := HeldAll(fs, nbs, FirstN(|fs|));
    forall i | 0 <= i < |rs| ensures rs[i].offset == |Payloads(rs[..i])| {
      HeldAt(fs, nbs, FirstN(|fs|), 0);
      FirstPrefix(|fs|, i);
      HeldAt(fs, nbs, FirstN(|fs|), i);
      PrefixPayload(d, fs, nbs, i);
      SameHeld(fs, nbs, FirstN(|fs|), i);
      HeldFields(fs[i], nbs[i]);
    }
  }

  // ----- the round trip

  /** A delivery order in which each fragment comes below or above all before it. */
  ghost predicate OutsideOrder(order: seq<nat>) {
    && (forall j :: 0 <= j < |order| ==> order[j] < |order|)
    && (forall i, j :: 0 <= i < j < |order| ==> order[i] != order[j])
    && (forall j :: 0 <= j < |order| ==> Below(order, j) || Above(order, j))
  }

  ghost predicate Below(order: seq<nat>, j: nat) {
    j < |order| && forall i :: 0 <= i < j ==> order[j] < order[i]
  }

  ghost predicate Above(order: seq<nat>, j: nat) {
    j < |order| && forall i :: 0 <= i < j ==> order[i] < order[j]
  }

  /** Index `x` added to the indices held. */
  function AddIndex(idx: seq<nat>, x: nat): seq<nat> {
    if idx != [] && x < idx[0] then [x] + idx else idx + [x]
  }

  /** The indices held after `j` deliveries. */
  ghost predicate HeldIndices(idx: seq<nat>, order: seq<nat>, j: nat) {
    && |idx| == j <= |order|
    && Ascending(idx, |order|)
    && (forall i :: 0 <= i < j ==> order[i] in idx)
    && (forall x :: x in idx ==> x in order[..j])
  }

  /** An index that lies below or above those held. */
  ghost predicate Beside(idx: seq<nat>, x: nat) {
    idx == [] || x < idx[0] || idx[|idx| - 1] < x
  }

  lemma AddAscending(idx: seq<nat>, x: nat, m: nat)
    requires Ascending(idx, m) && x < m && Beside(idx, x)
    ensures Ascending(AddIndex(idx, x), m)
  {}

  lemma NextBeside(idx: seq<nat>, order: seq<nat>, j: nat)
    requires OutsideOrder(order) && HeldIndices(idx, order, j) && j < |order|
    ensures order[j] < |order| && Beside(idx, order[j])
  {
    if idx != [] {
      var a, b := idx[0], idx[|idx| - 1];
      assert a in order[..j] && b in order[..j];
      var i :| 0 <= i < j && order[..j][i] == a;
      var k :| 0 <= k < j && order[..j][k] == b;
      var x := order[j];
      assert order[i] == a && order[k] == b;
      if Below(order, j) {
        assert x < order[i];
      } else {
        assert Above(order, j);
        assert order[k] < x;
      }
    }
  }

  lemma AddIndexOk(idx: seq<nat>, order: seq<nat>, j: nat)
    requires OutsideOrder(order) && HeldIndices(idx, order, j) && j < |order|
    ensures order[j] < |order| && Beside(idx, order[j])
    ensures HeldIndices(AddIndex(idx, order[j]), order, j + 1)
  {
    hide Ascending, OutsideOrder, Beside;
    NextBeside(idx, order, j);
    AddAscending(idx, order[j], |order|);
    assert order[..j + 1] == order[..j] + [order[j]];
  }

  /** Everything held: the indices are all of them. */
  lemma {:induction false} AllHeld(idx: seq<nat>, n: nat)
    requires Ascending(idx, n) && |idx| == n
    ensures idx == FirstN(n)
  {
    if n > 0 {
      assert forall k :: 0 <= k < n - 1 ==> idx[k] < idx[n - 1];
      AllHeld(idx[..n - 1], n - 1);
      assert idx == idx[..n - 1] + [idx[n - 1]];
      LastIndex(idx, n);
    }
  }

  lemma LastIndex(idx: seq<nat>, n: nat)
    requires n > 0 && Ascending(idx, n) && |idx| == n && idx[..n - 1] == FirstN(n - 1)
    ensures idx[n - 1] == n - 1
  {
    assert n > 1 ==> idx[n - 2] == idx[..n - 1][n - 2];
  }

  lemma BesideWhich(idx: seq<nat>, x: nat, m: nat)
    requires Ascending(idx, m) && Beside(idx, x) && idx != []
    ensures idx[0] <= idx[|idx| - 1] && idx[|idx| - 1] < m
    ensures x < idx[0] || (idx[0] < x && idx[|idx| - 1] < x)
  {}

  /** On the ring of those held, a fragment falls on the same side as its index. */
  lemma SameSide(d: Packet, fs: seq<Packet>, nbs: seq<nat>, idx: seq<nat>, x: nat)
    requires Fragmentation(d, fs) && |nbs| == |fs| && Ascending(idx, |fs|) && x < |fs| && Beside(idx, x) && idx != []
    ensures forall k :: 0 <= k < |idx| ==> idx[k] < |fs|
    ensures HeldAll(fs, nbs, idx) != [] && Outside(HeldAll(fs, nbs, idx), OffsetOf(fs[x].ffo))
    ensures OffsetOf(fs[x].ffo) < HeldAll(fs, nbs, idx)[0].offset <==> x < idx[0]
  {
    hide HasMF, OffsetOf, Fragmentation, Held, HeldAll, Beside;
    BesideWhich(idx, x, |fs|);
    var a, b := idx[0], idx[|idx| - 1];
    HeldAt(fs, nbs, idx, 0);
    HeldAt(fs, nbs, idx, |idx| - 1);
    HeldFields(fs[a], nbs[a]);
    HeldFields(fs[b], nbs[b]);
    if x < a {
      OffsetsAscend(d, fs, x, a);
    } else {
      OffsetsAscend(d, fs, b, x);
      OffsetsAscend(d, fs, a, x);
    }
  }

  lemma HeldAdd(fs: seq<Packet>, nbs: seq<nat>, idx: seq<nat>, x: nat)
    requires |nbs| == |fs| && x < |fs| && forall k :: 0 <= k < |idx| ==> idx[k] < |fs|
    ensures forall k :: 0 <= k < |AddIndex(idx, x)| ==> AddIndex(idx, x)[k] < |fs|
    ensures HeldAll(fs, nbs, AddIndex(idx, x))
         == if idx != [] && x < idx[0] then [Held(fs[x], nbs[x])] + HeldAll(fs, nbs, idx) else HeldAll(fs, nbs, idx) + [Held(fs[x], nbs[x])]
  {
    hide Held, HeldAll;
    if idx != [] && x < idx[0] {
      HeldBefore(fs, nbs, idx, x);
    } else {
      HeldAfter(fs, nbs, idx, x);
    }
  }

  lemma HeldBefore(fs: seq<Packet>, nbs: seq<nat>, idx: seq<nat>, x: nat)
    requires |nbs| == |fs| && x < |fs| && forall k :: 0 <= k < |idx| ==> idx[k] < |fs|
    ensures forall k :: 0 <= k < |[x] + idx| ==> ([x] + idx)[k] < |fs|
    ensures HeldAll(fs, nbs, [x] + idx) == [Held(fs[x], nbs[x])] + HeldAll(fs, nbs, idx)
  {
    hide Held;
  }

  lemma HeldAfter(fs: seq<Packet>, nbs: seq<nat>, idx: seq<nat>, x: nat)
    requires |nbs| == |fs| && x < |fs| && forall k :: 0 <= k < |idx| ==> idx[k] < |fs|
    ensures forall k :: 0 <= k < |idx + [x]| ==> (idx + [x])[k] < |fs|
    ensures HeldAll(fs, nbs, idx + [x]) == HeldAll(fs, nbs, idx) + [Held(fs[x], nbs[x])]
  {
    hide Held;
  }

  /** Hanging fragment `x` on the ring of those held. */
  lemma HangIndex(d: Packet, fs: seq<Packet>, nbs: seq<nat>, idx: seq<nat>, x: nat)
    requires Fragmentation(d, fs) && |nbs| == |fs| && Ascending(idx, |fs|) && x < |fs| && Beside(idx, x)
    ensures forall k :: 0 <= k < |idx| ==> idx[k] < |fs|
    ensures forall k :: 0 <= k < |AddIndex(idx, x)| ==> AddIndex(idx, x)[k] < |fs|
    ensures Hang(HeldAll(fs, nbs, idx), Held(fs[x], nbs[x])) == HeldAll(fs, nbs, AddIndex(idx, x))
    ensures idx != [] ==> Outside(HeldAll(fs, nbs, idx), OffsetOf(fs[x].ffo))
    ensures Ascending(AddIndex(idx, x), |fs|) && |AddIndex(idx, x)| == |idx| + 1
  {
    hide HasMF, OffsetOf, Fragmentation, Held, HeldAll, Beside, Outside;
    AddAscending(idx, x, |fs|);
    HeldAdd(fs, nbs, idx, x);
    HeldFields(fs[x], nbs[x]);
    if idx != [] {
      SameSide(d, fs, nbs, idx, x);
    } else {
      EmptyRing(fs, nbs, idx);
    }
  }

  lemma HeldTosBase(p: Packet, nb: nat)
    ensures Even(Held(p, nb).tos) == Even(p.tos)
  {}

  lemma WholeIs(key: Key, rs: seq<Frag>, tos: byte, payload: seq<byte>, nbs: seq<nat>)
    requires rs != [] && rs[0].hlen == HEADER && Even(rs[0].tos) == Even(tos)
    requires Payloads(rs) == payload && Chains(rs) == nbs
    ensures Whole(key, rs) == Datagram(HEADER, Even(tos), Low16(HEADER + |payload|), key, payload, nbs)
  {
    hide Payloads, Chains;
  }

  /** What the whole ring is handed up as. */
  lemma WholeOfAll(d: Packet, fs: seq<Packet>, nbs: seq<nat>)
    requires Fragmentation(d, fs) && |nbs| == |fs|
    ensures HeldAll(fs, nbs, FirstN(|fs|)) != []
    ensures Whole(d.key, HeldAll(fs, nbs, FirstN(|fs|)))
         == Datagram(HEADER, Even(d.tos), Low16(HEADER + |d.payload|), d.key, d.payload, nbs)
  {
    hide HasMF, OffsetOf, Fragmentation, Payloads, Chains, HeldAll, FirstN, Held, Whole, Even, Low16;
    FirstHeld(d, fs, nbs);
    AllPayload(d, fs, nbs);
    WholeIs(d.key, HeldAll(fs, nbs, FirstN(|fs|)), d.tos, d.payload, nbs);
  }

  lemma SliceAll<T>(s: seq<T>)
    ensures s[..|s|] == s
  {}

  lemma AllPayload(d: Packet, fs: seq<Packet>, nbs: seq<nat>)
    requires Fragmentation(d, fs) && |nbs| == |fs|
    ensures Payloads(HeldAll(fs, nbs, FirstN(|fs|))) == d.payload && Chains(HeldAll(fs, nbs, FirstN(|fs|))) == nbs
  {
    hide HasMF, OffsetOf, Fragmentation, Payloads, Chains, HeldAll, FirstN, Held;
    PrefixPayload(d, fs, nbs, |fs|);
    SliceAll(d.payload);
    SliceAll(nbs);
  }

  lemma FirstHeld(d: Packet, fs: seq<Packet>, nbs: seq<nat>)
    requires Fragmentation(d, fs) && |nbs| == |fs|
    ensures var rs := HeldAll(fs, nbs, FirstN(|fs|)); rs != [] && rs[0].hlen == HEADER && Even(rs[0].tos) == Even(d.tos)
  {
    hide HasMF, OffsetOf, Fragmentation, HeldAll, FirstN, Held, Even;
    NonEmpty(d, fs);
    FirstPrefix(|fs|, 0);
    HeldAt(fs, nbs, FirstN(|fs|), 0);
    PieceAt(d, fs, 0);
    HeldFields(fs[0], nbs[0]);
    HeldTosBase(fs[0], nbs[0]);
  }

  lemma StartIndices(order: seq<nat>)
    ensures HeldIndices([], order, 0) && forall m :: Ascending([], m)
  {}

  lemma EmptyRing(fs: seq<Packet>, nbs: seq<nat>, idx: seq<nat>)
    requires |nbs| == |fs| && forall k :: 0 <= k < |idx| ==> idx[k] < |fs|
    ensures HeldAll(fs, nbs, idx) == [] <==> idx == []
  {}

  /** The lists while the fragments held of one datagram are `ring`, the others being `base`. */
  function With(ring: seq<Frag>, key: Key, base: seq<FragList>): seq<FragList> {
    if ring == [] then base else [FragList(FRAG_TTL, key, ring)] + base
  }

  lemma NoList(key: Key, base: seq<FragList>)
    ensures With([], key, base) == base
  {}

  lemma FindHead(lists: seq<FragList>, key: Key)
    ensures lists != [] && lists[0].key == key ==> Find(lists, key) == 0
  {}

  lemma ArrivesInFront(ring: seq<Frag>, base: seq<FragList>, p: Packet, nb: nat)
    requires Find(base, p.key) == |base|
    ensures var lists, more := With(ring, p.key, base), Hang(ring, Held(p, nb));
            && NewRing(lists, p, nb) == more && more != [] && Room(lists, p, true, true)
            && Arrived(lists, p, nb) == (if Complete(more) then base else With(more, p.key, base))
            && (Find(lists, p.key) < |lists| <==> ring != []) && (ring != [] ==> lists[Find(lists, p.key)].frags == ring)
  {
    hide Complete, Held, Hang, Find;
    var lists, more := With(ring, p.key, base), Hang(ring, Held(p, nb));
    HangNonEmpty(ring, Held(p, nb));
    if ring != [] {
      FindHead(lists, p.key);
      assert lists[..0] + lists[0 + 1..] == base && lists[0 := lists[0].(frags := more)] == With(more, p.key, base);
    }
  }

  /** The ring completes with the last delivery and not before. */
  lemma DoneIffLast(d: Packet, fs: seq<Packet>, nbs: seq<nat>, idx: seq<nat>, j: nat)
    requires Fragmentation(d, fs) && |nbs| == |fs| && Ascending(idx, |fs|) && 0 < |idx| == j <= |fs|
    ensures forall k :: 0 <= k < |idx| ==> idx[k] < |fs|
    ensures Complete(HeldAll(fs, nbs, idx)) <==> j == |fs| && d.tos % 2 == 0
    ensures HeldAll(fs, nbs, idx) != []
    ensures Complete(HeldAll(fs, nbs, idx)) ==>
              Whole(d.key, HeldAll(fs, nbs, idx)) == Datagram(HEADER, d.tos, Low16(HEADER + |d.payload|), d.key, d.payload, nbs)
  {
    hide HasMF, OffsetOf, Fragmentation, Payloads, Chains, HeldAll, FirstN, Complete, Whole, Held;
    CompleteIffAll(d, fs, nbs, idx);
    EmptyRing(fs, nbs, idx);
    FirstPrefix(|fs|, 0);
    if j == |fs| {
      AllHeld(idx, |fs|);
      WholeOfAll(d, fs, nbs);
    }
  }

  /** What a delivery that completes the datagram sends up. */
  lemma UpAll(d: Packet, fs: seq<Packet>, nbs: seq<nat>, idx: seq<nat>, lists: seq<FragList>, p: Packet, nb: nat)
    requires Fragmentation(d, fs) && |nbs| == |fs| && Ascending(idx, |fs|) && 0 < |idx| <= |fs|
    requires forall k :: 0 <= k < |idx| ==> idx[k] < |fs|
    requires NewRing(lists, p, nb) == HeldAll(fs, nbs, idx)
    ensures GoneUp(lists, p, nb) == if |idx| == |fs| && d.tos % 2 == 0 then multiset(nbs) else multiset{}
  {
    hide HasMF, OffsetOf, Fragmentation, Payloads, Chains, HeldAll, FirstN, Complete, Held, NewRing;
    DoneIffLast(d, fs, nbs, idx, |idx|);
    if |idx| == |fs| {
      AllHeld(idx, |fs|);
      AllPayload(d, fs, nbs);
    }
  }

  /**
    The fragments of a datagram, delivered once each in any such order with memory for each: every delivery
    before the last returns nothing, and the last gives the datagram back if the low bit of its type of
    service is clear.  If it is set nothing ever goes up.
   */
  method Reassemble(r: Reassembler, d: Packet, fs: seq<Packet>, nbs: seq<nat>, order: seq<nat>) returns (outs: seq<Option<Datagram>>)
    requires r.Valid() && Find(r.lists, d.key) == |r.lists|
    requires Fragmentation(d, fs) && |nbs| == |fs| == |order| && OutsideOrder(order)
    modifies r
    ensures r.Valid() && r.freed == old(r.freed) && |outs| == |fs| > 0
    ensures forall k :: 0 <= k < |fs| - 1 ==> outs[k] == None
    ensures d.tos % 2 == 0 ==>
              && outs[|fs| - 1] == Some(Datagram(HEADER, d.tos, Low16(HEADER + |d.payload|), d.key, d.payload, nbs))
              && r.lists == old(r.lists) && r.returned == old(r.returned) + multiset(nbs)
    ensures d.tos % 2 == 1 ==>
              && outs[|fs| - 1] == None && r.returned == old(r.returned)
              && r.lists == [FragList(FRAG_TTL, d.key, HeldAll(fs, nbs, FirstN(|fs|)))] + old(r.lists)
  {
    hide HasMF, OffsetOf, Fragmentation, Payloads, Chains, HeldAll, FirstN, Held, Hang, Complete, Whole, ListsOk, Find, Outside;
    hide Ascending, OutsideOrder, HeldIndices, AddIndex, Beside, Arrived, NewRing, Hung, Accounted, GoneUp, Room, With, HeldChains;
    outs := [];
    ghost var base, gone := r.lists, r.returned;
    ghost var idx: seq<nat> := [];
    NonEmpty(d, fs);
    StartIndices(order);
    EmptyRing(fs, nbs, idx);
    NoList(d.key, base);
    var j := 0;
    while j < |fs|
      invariant 0 <= j <= |fs| && |idx| == j == |outs| && HeldIndices(idx, order, j) && r.Valid() && r.freed == old(r.freed)
      invariant Ascending(idx, |fs|) && forall k :: 0 <= k < |idx| ==> idx[k] < |fs|
      invariant forall k :: 0 <= k < j && k < |fs| - 1 ==> outs[k] == None
      invariant j < |fs| || d.tos % 2 == 1 ==>
                  && (j > 0 ==> outs[j - 1] == None) && r.returned == gone
                  && r.lists == With(HeldAll(fs, nbs, idx), d.key, base)
      invariant j == |fs| && d.tos % 2 == 0 ==>
                  && outs[j - 1] == Some(Datagram(HEADER, d.tos, Low16(HEADER + |d.payload|), d.key, d.payload, nbs))
                  && r.lists == base && r.returned == gone + multiset(nbs)
    {
      var x := order[j];
      AddIndexOk(idx, order, j);
      HangIndex(d, fs, nbs, idx, x);
      PieceAt(d, fs, x);
      EmptyRing(fs, nbs, idx);
      ArrivesInFront(HeldAll(fs, nbs, idx), base, fs[x], nbs[x]);
      DoneIffLast(d, fs, nbs, AddIndex(idx, x), j + 1);
      UpAll(d, fs, nbs, AddIndex(idx, x), r.lists, fs[x], nbs[x]);
      var out := r.Input(fs[x], nbs[x], true, true);
      outs := outs + [out];
      idx := AddIndex(idx, x);
      j := j + 1;
    }
    AllWaiting(d, fs, nbs, idx, base);
  }

  /** All the fragments on one list, as long as they do not go up. */
  lemma AllWaiting(d: Packet, fs: seq<Packet>, nbs: seq<nat>, idx: seq<nat>, base: seq<FragList>)
    requires Fragmentation(d, fs) && |nbs| == |fs| == |idx| && Ascending(idx, |fs|)
    ensures forall k :: 0 <= k < |idx| ==> idx[k] < |fs|
    ensures With(HeldAll(fs, nbs, idx), d.key, base) == [FragList(FRAG_TTL, d.key, HeldAll(fs, nbs, FirstN(|fs|)))] + base
  {
    hide HasMF, OffsetOf, Fragmentation, HeldAll, FirstN, Held;
    AllHeld(idx, |fs|);
    WholeOfAll(d, fs, nbs);
  }

  /** Delivery from the first fragment to the last, or from the last to the first. */
  function InOrder(n: nat, backwards: bool): (order: seq<nat>)
    ensures |order| == n && forall j :: 0 <= j < n ==> order[j] == if backwards then n - 1 - j else j
  {
    seq(n, j requires 0 <= j < n => if backwards then n - 1 - j else j)
  }

  lemma InOrderOutside(n: nat, backwards: bool)
    ensures OutsideOrder(InOrder(n, backwards))
  {
    hide InOrder;
    var order := InOrder(n, backwards);
    forall j | 0 <= j < n ensures Below(order, j) || Above(order, j) {
      if backwards {
        assert Below(order, j);
      } else {
        assert Above(order, j);
      }
    }
  }

  /**
    A datagram too long for the link, fragmented, delivered in either order and reassembled is the datagram
    again, if the low bit of its type of service is clear.
   */
  method SendAndReassemble(r: Reassembler, d: Packet, mtu: nat, maxPacket: nat, backwards: bool, firstNb: nat) returns (out: Option<Datagram>, nbs: seq<nat>)
    requires r.Valid() && Find(r.lists, d.key) == |r.lists|
    requires d.hlen == HEADER && d.ffo == 0 && d.total == HEADER + |d.payload| && d.tos % 2 == 0
    requires HEADER + 8 <= mtu < d.total <= maxPacket < 0x1_0000
    modifies r
    ensures r.Valid() && r.lists == old(r.lists) && r.freed == old(r.freed) && r.returned == old(r.returned) + multiset(nbs)
    ensures out == Some(Datagram(d.hlen, d.tos, d.total, d.key, d.payload, nbs))
  {
    hide Fragmentation, OutsideOrder, InOrder, HasMF, OffsetOf, Whole, Find, ListsOk, Accounted;
    var sent := Output(d, mtu, maxPacket, false, true, _ => true);
    var fs := sent.packets;
    nbs := seq(|fs|, i => firstNb + i);
    var order := InOrder(|fs|, backwards);
    InOrderOutside(|fs|, backwards);
    var outs := Reassemble(r, d, fs, nbs, order);
    out := outs[|outs| - 1];
  }

  /**
    The same with the low bit of the type of service set: nothing goes up, and all the fragments stay held, in
    order, on a list that waits to die of age.
   */
  method SendOdd(r: Reassembler, d: Packet, mtu: nat, maxPacket: nat, backwards: bool, firstNb: nat)
      returns (outs: seq<Option<Datagram>>, ghost fs: seq<Packet>, nbs: seq<nat>)
    requires r.Valid() && Find(r.lists, d.key) == |r.lists|
    requires d.hlen == HEADER && d.ffo == 0 && d.total == HEADER + |d.payload| && d.tos % 2 == 1
    requires HEADER + 8 <= mtu < d.total <= maxPacket < 0x1_0000
    modifies r
    ensures Fragmentation(d, fs) && |fs| == |outs| == |nbs| && forall k :: 0 <= k < |outs| ==> outs[k] == None
    ensures r.Valid() && r.freed == old(r.freed) && r.returned == old(r.returned)
    ensures r.lists == [FragList(FRAG_TTL, d.key, HeldAll(fs, nbs, FirstN(|fs|)))] + old(r.lists)
  {
    hide Fragmentation, OutsideOrder, InOrder, HasMF, OffsetOf, Whole, Find, ListsOk, Accounted, HeldAll, FirstN;
    var sent := Output(d, mtu, maxPacket, false, true, _ => true);
    fs := sent.packets;
    nbs := seq(|sent.packets|, i => firstNb + i);
    var order := InOrder(|sent.packets|, backwards);
    InOrderOutside(|sent.packets|, backwards);
    outs := Reassemble(r, d, sent.packets, nbs, order);
  }
}
