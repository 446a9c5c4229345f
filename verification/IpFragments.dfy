/**
  IPv4 fragmentation and reassembly (Sources/fnet_stack/stack/fnet_ip.c), after section 3.2 of RFC 791.
  A packet's payload is the byte sequence of its netbuf chain; `nb` names the chain, so that every chain
  can be accounted for.
 */
module IpFragments {
  import opened Words

  /** sizeof(fnet_ip_header_t); headers made here carry no options. */
  const HEADER: nat := 20

  /** FNET_IP_MF and the offset bits in the flags-and-offset field. */
  const MF: nat := 0x2000

  /** FNET_IP_FRAG_TTL. */
  const FRAG_TTL: nat := 20

  datatype Key = Key(id: Short, protocol: byte, src: nat, dst: nat)

  /** An IP packet: header length in bytes, type of service, total length, key, flags and offset, time to live. */
  datatype Packet = Packet(hlen: nat, tos: byte, total: nat, key: Key, ffo: Short, ttl: byte, payload: seq<byte>)

  /** More fragments follow. */
  predicate HasMF(ffo: Short) {
    ffo / MF % 2 == 1
  }

  /** The fragment offset in bytes: the field shifted by three in 16 bits, which drops the flags. */
  function OffsetOf(ffo: Short): Short {
    ffo * 8 % 0x1_0000
  }

  lemma OffsetEncoded(units: nat, more: bool)
    requires units < MF
    ensures var ffo := units + (if more then MF else 0); OffsetOf(ffo) == 8 * units && HasMF(ffo) == more
  {
    if more {
      assert (units + MF) * 8 == units * 8 + 0x1_0000;
    }
  }

  /** The field as the header lays it out: a reserved bit, the two flags, and the offset in units of eight bytes. */
  lemma FlagsAndOffset(reserved: bool, dont: bool, more: bool, units: nat)
    requires units < 0x2000
    ensures var ffo := (if reserved then 0x8000 else 0) + (if dont then 0x4000 else 0) + (if more then 0x2000 else 0) + units;
            OffsetOf(ffo) == 8 * units && HasMF(ffo) == more
  {
    var top := (if reserved then 4 else 0) + (if dont then 2 else 0) + if more then 1 else 0;
    assert (top * 0x2000 + units) * 8 == top * 0x1_0000 + 8 * units;
    assert (top * 0x2000 + units) / 0x2000 == top;
  }

  // ----- fragmentation

  /** `fs` are fragments of `d`, in order: they tile its payload and say so. */
  ghost predicate Fragmentation(d: Packet, fs: seq<Packet>) {
    && fs != []
    && (forall i :: 0 <= i < |fs| ==> Piece(d, fs[i], i + 1 < |fs|))
    && OffsetOf(fs[0].ffo) == 0
    && (forall i :: 0 <= i < |fs| - 1 ==> OffsetOf(fs[i + 1].ffo) == OffsetOf(fs[i].ffo) + |fs[i].payload|)
    && OffsetOf(fs[|fs| - 1].ffo) + |fs[|fs| - 1].payload| == |d.payload|
  }

  /** A packet with a non-empty piece of the payload of `d` and its header otherwise. */
  ghost predicate Piece(d: Packet, f: Packet, more: bool) {
    && f.key == d.key && f.tos == d.tos && f.ttl == d.ttl && f.hlen == HEADER
    && f.total == HEADER + |f.payload| && HasMF(f.ffo) == more
    && 0 < |f.payload| && OffsetOf(f.ffo) + |f.payload| <= |d.payload|
    && f.payload == d.payload[OffsetOf(f.ffo)..OffsetOf(f.ffo) + |f.payload|]
  }

  /** The fragment of `n` bytes from `at`. */
  function Fragment(d: Packet, at: nat, n: nat, more: bool): Packet
    requires at % 8 == 0 && at / 8 < MF && at + n <= |d.payload|
  {
    d.(total := HEADER + n, ffo := at / 8 + (if more then MF else 0), payload := d.payload[at..at + n])
  }

  lemma FragmentPiece(d: Packet, at: nat, n: nat, more: bool)
    requires d.hlen == HEADER && at % 8 == 0 && at / 8 < MF && 0 < n && at + n <= |d.payload|
    ensures Piece(d, Fragment(d, at, n, more), more) && OffsetOf(Fragment(d, at, n, more).ffo) == at
  {
    OffsetEncoded(at / 8, more);
  }

  /** The fragments made so far after the first: they tile the payload from `lo` to `hi`. */
  ghost predicate Tail(d: Packet, fs: seq<Packet>, lo: nat, hi: nat, mtu: nat) {
    && (forall i :: 0 <= i < |fs| ==> fs[i].total <= mtu && Piece(d, fs[i], OffsetOf(fs[i].ffo) + |fs[i].payload| < |d.payload|))
    && (if fs == [] then lo == hi
        else OffsetOf(fs[0].ffo) == lo && OffsetOf(fs[|fs| - 1].ffo) + |fs[|fs| - 1].payload| == hi)
    && (forall i :: 0 <= i < |fs| - 1 ==> OffsetOf(fs[i + 1].ffo) == OffsetOf(fs[i].ffo) + |fs[i].payload|)
  }

  lemma TailGrow(d: Packet, fs: seq<Packet>, lo: nat, hi: nat, mtu: nat, n: nat)
    requires Tail(d, fs, lo, hi, mtu) && d.hlen == HEADER && hi % 8 == 0 && hi / 8 < MF && 0 < n && hi + n <= |d.payload|
    requires HEADER + n <= mtu
    ensures Tail(d, fs + [Fragment(d, hi, n, hi + n < |d.payload|)], lo, hi + n, mtu)
  {
    hide Piece, HasMF, OffsetOf;
    FragmentPiece(d, hi, n, hi + n < |d.payload|);
  }

  /** The mask `& ~7`. */
  function RoundDown(x: int): (r: int)
    ensures r % 8 == 0 && r <= x < r + 8
  {
    x - x % 8
  }

  lemma Mod8(a: nat, b: nat)
    requires a % 8 == 0 && b % 8 == 0
    ensures (a + b) % 8 == 0
  {}

  /** Each fragment ends before the whole unless it is the last. */
  lemma TailEnds(d: Packet, fs: seq<Packet>, lo: nat, mtu: nat, i: nat)
    requires Tail(d, fs, lo, |d.payload|, mtu) && i < |fs|
    ensures OffsetOf(fs[i].ffo) + |fs[i].payload| < |d.payload| <==> i + 1 < |fs|
  {
    hide HasMF, OffsetOf;
    if i + 1 < |fs| {
      var j := i + 1;
      assert Piece(d, fs[j], OffsetOf(fs[j].ffo) + |fs[j].payload| < |d.payload|);
      assert OffsetOf(fs[i + 1].ffo) == OffsetOf(fs[i].ffo) + |fs[i].payload|;
    }
  }

  lemma TailHead(d: Packet, fs: seq<Packet>, lo: nat, mtu: nat)
    requires Tail(d, fs, lo, |d.payload|, mtu) && d.hlen == HEADER && 0 < lo < |d.payload| && HEADER + lo <= mtu
    ensures Fragmentation(d, [Fragment(d, 0, lo, true)] + fs)
    ensures forall i :: 0 <= i < 1 + |fs| ==> ([Fragment(d, 0, lo, true)] + fs)[i].total <= mtu
  {
    hide Piece, HasMF, OffsetOf;
    FragmentPiece(d, 0, lo, true);
    var gs := [Fragment(d, 0, lo, true)] + fs;
    forall i | 0 <= i < |gs| ensures Piece(d, gs[i], i + 1 < |gs|) {
      if i > 0 {
        TailEnds(d, fs, lo, mtu, i - 1);
      }
    }
    forall i | 0 <= i < |gs| - 1 ensures OffsetOf(gs[i + 1].ffo) == OffsetOf(gs[i].ffo) + |gs[i].payload| {
      if i > 0 {
        assert gs[i] == fs[i - 1] && gs[i + 1] == fs[i - 1 + 1];
      }
    }
  }

  /** A byte sequence cut every `n` bytes. */
  ghost function Cut(b: seq<byte>, n: nat): seq<seq<byte>>
    requires 0 < n
  {
    if |b| <= n then [b] else [b[..n]] + Cut(b[n..], n)
  }

  lemma CutStep(b: seq<byte>, n: nat, at: nat, end: nat)
    requires 0 < n && at <= end <= |b| && end == if at + n < |b| then at + n else |b|
    ensures Cut(b[at..], n) == [b[at..end]] + if end < |b| then Cut(b[end..], n) else []
  {
    if end < |b| {
      assert b[at..][..n] == b[at..end] && b[at..][n..] == b[end..];
    } else {
      assert b[at..] == b[at..end];
    }
  }

  /** What the fragments carry. */
  function Carried(fs: seq<Packet>): (r: seq<seq<byte>>)
    ensures |r| == |fs| && forall i :: 0 <= i < |fs| ==> r[i] == fs[i].payload
  {
    seq(|fs|, i requires 0 <= i < |fs| => fs[i].payload)
  }

  lemma CarriedMore(fs: seq<Packet>, f: Packet)
    ensures Carried(fs + [f]) == Carried(fs) + [f.payload]
  {}

  lemma PiecesMore<T>(pieces: seq<T>, piece: T, rest: seq<T>)
    ensures pieces + ([piece] + rest) == pieces + [piece] + rest && [piece] + [] == [piece]
  {}

  datatype Outcome = TooBig | NoMemory | Sent(packets: seq<Packet>)

  /**
    fnet_ip_output from the header on, for a datagram with a 20-byte header.  `forHeader` tells whether the
    header finds memory and `memory` whether each fragment does; one that does not discards every fragment,
    though the call still reports success.
   */
  method Output(d: Packet, mtu: nat, maxPacket: nat, df: bool, forHeader: bool, memory: nat -> bool) returns (r: Outcome)
    requires maxPacket < 0x1_0000
    requires d.hlen == HEADER && d.ffo == 0 && d.total == HEADER + |d.payload|
    ensures r.NoMemory? <==> d.total <= maxPacket && !forHeader
    ensures r.TooBig? <==> d.total > maxPacket || (forHeader && d.total > mtu && (df || mtu < 28))
    ensures r.Sent? && d.total <= mtu ==> r.packets == [if df then d.(ffo := 0x4000) else d]
    ensures r.Sent? && d.total > mtu && r.packets != [] ==>
              Fragmentation(d, r.packets) && forall i :: 0 <= i < |r.packets| ==> r.packets[i].total <= mtu
    ensures r.Sent? && d.total > mtu && r.packets != [] ==> Carried(r.packets) == Cut(d.payload, RoundDown(mtu - 20))
    ensures r.Sent? && d.total > mtu ==> (r.packets != [] <==> forall k: nat :: k < |Cut(d.payload, RoundDown(mtu - 20))| - 1 ==> memory(k))
  {
    if d.total > maxPacket {
      return TooBig;
    }
    if !forHeader {
      return NoMemory;
    }
    if d.total <= mtu {
      return Sent([if df then d.(ffo := 2 * MF) else d]);
    }
    // Rounded down to a multiple of 8; an MTU below the header gives a negative length.
    var fragLength: int := RoundDown(mtu - HEADER);
    if df || fragLength < 8 {
      return TooBig;
    }
    hide Fragmentation, RoundDown, Cut, Carried;
    var packets := Split(d, mtu, fragLength, memory);
    r := Sent(packets);
  }

  /** The fragmenting loop, with `first` bytes of payload in the first fragment. */
  method Split(d: Packet, mtu: nat, first: nat, memory: nat -> bool) returns (packets: seq<Packet>)
    requires d.hlen == HEADER && d.total == HEADER + |d.payload| < 0x1_0000
    requires 8 <= first && first % 8 == 0 && HEADER + first <= mtu < d.total
    ensures packets != [] ==>
              && Fragmentation(d, packets) && Carried(packets) == Cut(d.payload, first)
              && forall i :: 0 <= i < |packets| ==> packets[i].total <= mtu
    ensures packets != [] <==> forall k: nat :: k < |Cut(d.payload, first)| - 1 ==> memory(k)
  {
    hide Tail, Fragmentation, Fragment, Cut, Carried;
    var fragLength, rest: seq<Packet> := first, [];
    var offset := HEADER + fragLength;
    packets := [Fragment(d, 0, first, true)];
    TailNone(d, first, mtu);
    CutFirst(d, first);
    while offset < d.total
      invariant HEADER + first <= offset <= d.total && (offset < d.total ==> fragLength == first && (offset - HEADER) % 8 == 0)
      invariant Tail(d, rest, first, offset - HEADER, mtu) && packets == [Fragment(d, 0, first, true)] + rest
      invariant Carried(packets) + (if offset < d.total then Cut(d.payload[offset - HEADER..], first) else []) == Cut(d.payload, first)
      invariant forall k: nat :: k < |rest| ==> memory(k)
      decreases d.total - offset
    {
      CutLeft(d.payload, first, offset - HEADER);
      if !memory(|rest|) {
        return [];
      }
      var more := offset + fragLength < d.total;
      if !more {
        fragLength := d.total - offset;
      }
      var f := Fragment(d, offset - HEADER, fragLength, more);
      TailGrow(d, rest, first, offset - HEADER, mtu, fragLength);
      CarriedNext(d, packets, first, offset - HEADER, fragLength, more);
      packets, rest := packets + [f], rest + [f];
      Mod8(offset - HEADER, first);
      offset := offset + fragLength;
    }
    TailHead(d, rest, first, mtu);
    assert Carried(packets) + [] == Carried(packets);
  }

  lemma CarriedNext(d: Packet, packets: seq<Packet>, first: nat, at: nat, n: nat, more: bool)
    requires at % 8 == 0 && at / 8 < MF && 0 < first && at + n <= |d.payload|
    requires n == if at + first < |d.payload| then first else |d.payload| - at
    requires Carried(packets) + Cut(d.payload[at..], first) == Cut(d.payload, first)
    ensures Carried(packets + [Fragment(d, at, n, more)])
         + (if at + n < |d.payload| then Cut(d.payload[at + n..], first) else []) == Cut(d.payload, first)
  {
    hide Cut, Carried, Fragment;
    CutStep(d.payload, first, at, at + n);
    FragmentCarries(d, at, n, more);
    CarriedMore(packets, Fragment(d, at, n, more));
    PiecesMore(Carried(packets), d.payload[at..at + n], if at + n < |d.payload| then Cut(d.payload[at + n..], first) else []);
  }

  lemma CutFirst(d: Packet, n: nat)
    requires 0 < n < |d.payload|
    ensures Carried([Fragment(d, 0, n, true)]) + Cut(d.payload[n..], n) == Cut(d.payload, n)
  {
    CutStep(d.payload, n, 0, n);
    assert d.payload[0..] == d.payload;
  }

  lemma CutLeft(b: seq<byte>, n: nat, at: nat)
    requires 0 < n && at < |b|
    ensures Cut(b[at..], n) != []
  {}

  lemma FragmentCarries(d: Packet, at: nat, n: nat, more: bool)
    requires at % 8 == 0 && at / 8 < MF && at + n <= |d.payload|
    ensures Fragment(d, at, n, more).payload == d.payload[at..at + n]
  {}

  lemma TailNone(d: Packet, lo: nat, mtu: nat)
    ensures Tail(d, [], lo, lo, mtu)
  {}
}
