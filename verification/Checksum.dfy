/**
  The Internet checksum (Sources/fnet_stack/stack/fnet_checksum.c) against its definition in section 2
  of RFC 1071.  `little` is the byte order the processor reads 16-bit words in; sums are 32-bit.
 */
module Checksum {
  import opened Words
  import opened NetbufMem

  /** The 16-bit word a processor reads from two bytes. */
  function Word16(little: bool, a: byte, b: byte): Short {
    if little then b * 256 + a else a * 256 + b
  }

  function Swap(w: Short): Short {
    w % 256 * 256 + w / 256
  }

  function Add32(a: nat, b: nat): (r: nat)
    ensures r < WORD
  {
    (a + b) % WORD
  }

  /** The sum of the 16-bit words of `s`, the last byte of an odd number of bytes padded with zero. */
  ghost function Sum(little: bool, s: seq<byte>): nat {
    if s == [] then 0
    else if |s| == 1 then Word16(little, s[0], 0)
    else Word16(little, s[0], s[1]) + Sum(little, s[2..])
  }

  lemma {:induction false} SumConcat(little: bool, s: seq<byte>, t: seq<byte>)
    requires |s| % 2 == 0
    ensures Sum(little, s + t) == Sum(little, s) + Sum(little, t)
  {
    if s == [] {
      assert s + t == t;
    } else {
      SumConcat(little, s[2..], t);
      assert (s + t)[2..] == s[2..] + t;
    }
  }

  /** One more whole word. */
  lemma SumWord(little: bool, s: seq<byte>, i: nat)
    requires i % 2 == 0 && i + 2 <= |s|
    ensures Sum(little, s[..i + 2]) == Sum(little, s[..i]) + Word16(little, s[i], s[i + 1])
  {
    assert s[..i + 2] == s[..i] + [s[i], s[i + 1]];
    SumConcat(little, s[..i], [s[i], s[i + 1]]);
    assert Sum(little, [s[i], s[i + 1]][2..]) == 0;
  }

  /** The byte that completes a word begun in an odd position. */
  lemma SumSecond(little: bool, s: seq<byte>, k: nat)
    requires k % 2 == 1 && k < |s|
    ensures Sum(little, s[..k + 1]) == Sum(little, s[..k]) + Word16(little, 0, s[k])
  {
    SumWord(little, s, k - 1);
    assert s[..k] == s[..k - 1] + [s[k - 1]];
    SumConcat(little, s[..k - 1], [s[k - 1]]);
  }

  /** From an even position the sums of two stretches add up. */
  lemma SumFrom(little: bool, s: seq<byte>, k: nat, n: nat)
    requires k % 2 == 0 && k + n <= |s|
    ensures Sum(little, s[..k + n]) == Sum(little, s[..k]) + Sum(little, s[k..k + n])
  {
    assert s[..k + n] == s[..k] + s[k..k + n];
    SumConcat(little, s[..k], s[k..k + n]);
  }

  lemma AddWrap(a: nat, b: nat, c: nat)
    ensures Add32(Add32(a, b), c) == Add32(a, b + c)
  {}

  /** The unrolled blocks: `n` words from position `at` are added one after another. */
  method AddWords(little: bool, sum: nat, s: seq<byte>, at: nat, n: nat, ghost start: nat) returns (r: nat)
    requires at % 2 == 0 && at + 2 * n <= |s| && sum == Add32(start, Sum(little, s[..at]))
    ensures r == Add32(start, Sum(little, s[..at + 2 * n]))
  {
    hide Sum, Word16, Add32;
    r := sum;
    for k := 0 to n
      invariant r == Add32(start, Sum(little, s[..at + 2 * k]))
    {
      SumWord(little, s, at + 2 * k);
      AddWrap(start, Sum(little, s[..at + 2 * k]), Word16(little, s[at + 2 * k], s[at + 2 * k + 1]));
      r := Add32(r, Word16(little, s[at + 2 * k], s[at + 2 * k + 1]));
    }
  }

  /** The mask fnet_ntohs(0xFF00) keeps the byte read first. */
  function FirstByte(little: bool, w: Short): Short {
    if little then w % 256 else w / 256 * 256
  }

  lemma FirstByteOf(little: bool, a: byte, b: byte)
    ensures FirstByte(little, Word16(little, a, b)) == Word16(little, a, 0)
  {}

  /** fnet_checksum_low: blocks of 16, 4 and 1 words and the masked last byte. */
  method Low(little: bool, sum: nat, s: seq<byte>, len: nat) returns (r: nat)
    requires sum < WORD && len <= |s|
    ensures r == Add32(sum, Sum(little, s[..len]))
  {
    hide Sum, Word16, FirstByte;
    SumNil(little);
    assert s[..0] == [];
    var left, at := len, 0;
    r := sum;
    while left >= 32
      invariant left >= 0 && at + left == len && at % 2 == 0 && r == Add32(sum, Sum(little, s[..at]))
    {
      r := AddWords(little, r, s, at, 16, sum);
      at, left := at + 32, left - 32;
    }
    while left >= 8
      invariant left >= 0 && at + left == len && at % 2 == 0 && r == Add32(sum, Sum(little, s[..at]))
    {
      r := AddWords(little, r, s, at, 4, sum);
      at, left := at + 8, left - 8;
    }
    while left >= 2
      invariant left >= 0 && at + left == len && at % 2 == 0 && r == Add32(sum, Sum(little, s[..at]))
    {
      r := AddWords(little, r, s, at, 1, sum);
      at, left := at + 2, left - 2;
    }
    if left != 0 {
      // The word read reaches one byte past the end, whatever it holds.
      var beyond: byte := *;
      FirstByteOf(little, s[at], beyond);
      SumLast(little, s, at);
      AddWrap(sum, Sum(little, s[..at]), Word16(little, s[at], 0));
      r := Add32(r, FirstByte(little, Word16(little, s[at], beyond)));
    }
  }

  lemma SumNil(little: bool)
    ensures Sum(little, []) == 0
  {}

  lemma SumLast(little: bool, s: seq<byte>, at: nat)
    requires at % 2 == 0 && at < |s|
    ensures Sum(little, s[..at + 1]) == Sum(little, s[..at]) + Word16(little, s[at], 0)
  {
    assert s[..at + 1] == s[..at] + [s[at]];
    SumConcat(little, s[..at], [s[at]]);
  }

  /** No empty netbuf lies where a word has been begun, among the first `len` bytes of a chain. */
  ghost predicate WordsWhole(m: Mem, ps: seq<Ptr>, len: nat) {
    forall i :: 0 < i < |ps| && Window(m, ps[i]) == [] ==> |Bytes(m, ps[..i])| % 2 == 0 || |Bytes(m, ps[..i])| >= len
  }

  lemma WordsWholeAt(m: Mem, ps: seq<Ptr>, len: nat, i: nat)
    requires WF(m) && WordsWhole(m, ps, len) && 0 < i < |ps| && ps[i] in m.bufs
    requires |Bytes(m, ps[..i])| % 2 == 1 && |Bytes(m, ps[..i])| < len
    ensures m.bufs[ps[i]].length > 0
  {
    WindowLen(m, ps[i]);
  }

  /** The bytes a netbuf shows from position `at`, as the processor finds them in memory. */
  function Shown(m: Mem, tmp: Ptr, at: nat): (s: seq<byte>)
    requires tmp in m.bufs && m.bufs[tmp].data in m.datas && at <= m.bufs[tmp].length
    requires m.bufs[tmp].off + m.bufs[tmp].length <= |m.datas[m.bufs[tmp].data].bytes|
    ensures |s| == m.bufs[tmp].length - at
  {
    m.datas[m.bufs[tmp].data].bytes[m.bufs[tmp].off + at..m.bufs[tmp].off + m.bufs[tmp].length]
  }

  lemma ShownAt(m: Mem, ps: seq<Ptr>, tmp: Ptr, at: nat, i: nat, k: nat, cur: nat)
    requires WF(m) && At(m, ps, tmp, at, i, k) && at + cur <= m.bufs[tmp].length
    ensures InRange(m, m.bufs[tmp]) && k + cur <= |Bytes(m, ps)| && Shown(m, tmp, at)[..cur] == Bytes(m, ps)[k..k + cur]
  {
    hide Counted, Bytes, List;
    AtSlice(m, ps, tmp, at, i, k, cur);
  }

  /**
    fnet_checksum_nb: the sum of the first `len` bytes of a chain.  A word that begins in one netbuf is
    completed with the first byte of the next.
   */
  method ChainSum(little: bool, m: Mem, nb: Ptr, len: nat, ghost ps: seq<Ptr>) returns (sum: nat)
    requires WF(m) && List(m.bufs, nb, ps) && nb != NULL && len <= |Bytes(m, ps)| && WordsWhole(m, ps, len)
    ensures sum == Sum(little, Bytes(m, ps)[..len]) % WORD
  {
    hide WF, Bytes, At, List, Sum, Word16, WordsWhole, Seg, Shown, Add32;
    AddWhole(Sum(little, Bytes(m, ps)[..len]));
    AddWhole(0);
    ghost var s := Bytes(m, ps);
    AtFirst(m, nb, ps);
    SumNil(little);
    assert s[..0] == [];
    var tmp, at: nat, left, i: nat := nb, 0, len, 0;
    AtUse(m, ps, tmp, at, i, 0);
    var cur: nat := if m.bufs[nb].length > len then len else m.bufs[nb].length;
    sum := 0;
    while left > 0
      invariant 0 <= left <= len && (len - left) % 2 == 0 && sum == Add32(0, Sum(little, s[..len - left]))
      invariant left > 0 ==> At(m, ps, tmp, at, i, len - left) && tmp in m.bufs && i < |ps|
      invariant left > 0 ==> at + cur <= m.bufs[tmp].length && cur == if m.bufs[tmp].length - at > left then left else m.bufs[tmp].length - at
      decreases left, |ps| - i
    {
      ghost var k := len - left;
      ShownAt(m, ps, tmp, at, i, k, cur);
      left := left - cur;
      sum := Low(little, sum, Shown(m, tmp, at), cur);
      SumFrom(little, s, k, cur);
      AddWrap(0, Sum(little, s[..k]), Sum(little, s[k..k + cur]));
      if left == 0 {
        break;
      }
      AtNext(m, ps, tmp, at, i, k, k + cur);
      tmp, at, i := m.bufs[tmp].next, 0, i + 1;
      AtUse(m, ps, tmp, at, i, k + cur);
      if cur % 2 == 1 {
        AtPrefix(m, ps, tmp, i, k + cur);
        WordsWholeAt(m, ps, len, i);
        ShownAt(m, ps, tmp, 0, i, k + cur, 1);
        SumSecond(little, s, k + cur);
        AddWrap(0, Sum(little, s[..k + cur]), Word16(little, 0, s[k + cur]));
        sum := Add32(sum, Word16(little, 0, Shown(m, tmp, 0)[0]));
        left := left - 1;
        at := 1;
        AtMore(m, ps, tmp, i, k + cur);
        cur := if m.bufs[tmp].length > left then left else m.bufs[tmp].length - 1;
      } else {
        cur := if m.bufs[tmp].length > left then left else m.bufs[tmp].length;
      }
    }
  }

  lemma AddWhole(x: nat)
    ensures Add32(0, x) == x % WORD
  {}

  lemma AtFirst(m: Mem, nb: Ptr, ps: seq<Ptr>)
    requires List(m.bufs, nb, ps) && nb != NULL
    ensures At(m, ps, nb, 0, 0, 0)
  {
    assert ps[0..] == ps && ps[..0] == [];
  }

  lemma AtPrefix(m: Mem, ps: seq<Ptr>, tmp: Ptr, i: nat, k: nat)
    requires At(m, ps, tmp, 0, i, k)
    ensures i < |ps| && ps[i] == tmp && |Bytes(m, ps[..i])| == k
  {}

  lemma AtMore(m: Mem, ps: seq<Ptr>, tmp: Ptr, i: nat, k: nat)
    requires At(m, ps, tmp, 0, i, k) && m.bufs[tmp].length > 0
    ensures At(m, ps, tmp, 1, i, k + 1)
  {}

  // ----- folding

  /** The two carry folds, the second truncated to 16 bits. */
  function Fold(sum: nat): Short {
    var s := sum / 0x1_0000 + sum % 0x1_0000;
    (s + s / 0x1_0000) % 0x1_0000
  }

  /** One's-complement residue: the representative of `n` modulo 65535 that is zero only for zero. */
  function Residue(n: nat): Short {
    if n == 0 then 0 else (n - 1) % 0xffff + 1
  }

  /** Numbers with the same remainder modulo 65535 that are both zero or both not have the same residue. */
  lemma SameResidue(a: nat, b: nat, k: int)
    requires a == b + 0xffff * k && (a == 0 <==> b == 0)
    ensures Residue(a) == Residue(b)
  {
    if b != 0 {
      ModShift(b - 1, a - 1, k);
    }
  }

  lemma ModShift(x: nat, y: nat, k: int)
    requires y == x + 0xffff * k
    ensures x % 0xffff == y % 0xffff
  {}

  /** The folds compute the residue, for every 32-bit sum. */
  lemma FoldIsResidue(sum: nat)
    requires sum < WORD
    ensures Fold(sum) == Residue(sum)
  {
    var hi, lo := sum / 0x1_0000, sum % 0x1_0000;
    var s := hi + lo;
    SameResidue(sum, s, hi);
    if s >= 0x1_0000 {
      SameResidue(s, s - 0xffff, 1);
    }
  }

  /** A residue determines the number modulo 65535. */
  lemma ResidueOf(n: nat) returns (k: nat)
    ensures n == Residue(n) + 0xffff * k
    ensures Residue(n) == 0 <==> n == 0
  {
    k := if n == 0 then 0 else (n - 1) / 0xffff;
  }

  /** Residues can be taken at any point of a sum. */
  lemma ResidueAdd(a: nat, b: nat)
    ensures Residue(Residue(a) + b) == Residue(a + b)
  {
    var k := ResidueOf(a);
    SameResidue(a + b, Residue(a) + b, k);
  }

  lemma {:induction false} SumBound(little: bool, s: seq<byte>)
    ensures Sum(little, s) <= 0xffff * ((|s| + 1) / 2)
  {
    if |s| > 1 {
      SumBound(little, s[2..]);
    }
  }

  // ----- the checksum functions

  /** The longest buffer whose sum cannot pass 32 bits. */
  const MAX_LEN: nat := 0x2_0002

  /** The Internet checksum of a byte string, as a 16-bit number in the processor's byte order. */
  ghost function Checksum(little: bool, s: seq<byte>): Short {
    0xffff - Residue(Sum(little, s))
  }

  /** The 32-bit sum does not wrap, or does so a multiple of 65535 times and not to zero. */
  predicate WrapsWell(n: nat) {
    n / WORD % 0xffff == 0 && (n % WORD == 0 ==> n == 0)
  }

  /** A sum taken in 32 bits has the right residue exactly then. */
  lemma WrapIff(n: nat)
    ensures Residue(n % WORD) == Residue(n) <==> WrapsWell(n)
  {
    var q, r := n / WORD, n % WORD;
    assert n == r + q + 0xffff * (0x1_0001 * q);
    if r > 0 {
      SameResidue(n, r + q, 0x1_0001 * q);
      assert q == q / 0xffff * 0xffff + q % 0xffff;
      if q % 0xffff == 0 {
        SameResidue(r + q, r, q / 0xffff);
      } else {
        SameResidue(r + q, r + q % 0xffff, q / 0xffff);
        OtherResidue(r, q % 0xffff);
      }
    }
  }

  lemma OtherResidue(r: nat, k: nat)
    requires r > 0 && 0 < k < 0xffff
    ensures Residue(r + k) != Residue(r)
  {
    var a := (r - 1) % 0xffff;
    assert r - 1 == (r - 1) / 0xffff * 0xffff + a;
    if a + k < 0xffff {
      SameResidue(r + k, a + k + 1, (r - 1) / 0xffff);
    } else {
      SameResidue(r + k, a + k + 1 - 0xffff, (r - 1) / 0xffff + 1);
    }
  }

  lemma SumFits(little: bool, s: seq<byte>)
    ensures |s| <= MAX_LEN ==> Sum(little, s) < WORD && WrapsWell(Sum(little, s))
  {
    SumBound(little, s);
  }

  /** fnet_checksum. */
  method ChecksumNb(little: bool, m: Mem, nb: Ptr, len: nat, ghost ps: seq<Ptr>) returns (c: Short)
    requires WF(m) && List(m.bufs, nb, ps) && nb != NULL && len <= |Bytes(m, ps)| && WordsWhole(m, ps, len)
    ensures c == Checksum(little, Bytes(m, ps)[..len]) <==> WrapsWell(Sum(little, Bytes(m, ps)[..len]))
    ensures len <= MAX_LEN ==> c == Checksum(little, Bytes(m, ps)[..len])
  {
    hide WF, List, Bytes, WordsWhole, Sum, Residue, WrapsWell;
    var sum := ChainSum(little, m, nb, len, ps);
    WrapIff(Sum(little, Bytes(m, ps)[..len]));
    SumFits(little, Bytes(m, ps)[..len]);
    FoldIsResidue(sum);
    c := 0xffff - Fold(sum);
  }

  /** fnet_checksum_buf. */
  method ChecksumBuf(little: bool, buf: seq<byte>) returns (c: Short)
    ensures c == Checksum(little, buf) <==> WrapsWell(Sum(little, buf))
    ensures |buf| <= MAX_LEN ==> c == Checksum(little, buf)
  {
    hide Sum, Residue, WrapsWell;
    var sum := Low(little, 0, buf, |buf|);
    assert buf[..|buf|] == buf;
    WrapIff(Sum(little, buf));
    SumFits(little, buf);
    FoldIsResidue(sum);
    c := 0xffff - Fold(sum);
  }

  /** One word more than that and a buffer of ones has the wrong checksum. */
  lemma TooLong(little: bool)
    ensures !WrapsWell(Sum(little, Ones(MAX_LEN / 2 + 1)))
  {
    hide Sum;
    SumOnes(little, MAX_LEN / 2 + 1);
  }

  /** `n` words of ones. */
  function Ones(n: nat): (s: seq<byte>)
    ensures |s| == 2 * n
  {
    if n == 0 then [] else [255, 255] + Ones(n - 1)
  }

  lemma {:induction false} SumOnes(little: bool, n: nat)
    ensures Sum(little, Ones(n)) == 0xffff * n
  {
    if n > 0 {
      SumOnes(little, n - 1);
      assert Ones(n)[2..] == Ones(n - 1);
    }
  }

  /** The pseudo-header sum: payload, protocol, length in network order, and both addresses. */
  ghost function PseudoSum(little: bool, s: seq<byte>, protocol: Short, src: seq<byte>, dst: seq<byte>): nat {
    Sum(little, s) + protocol + HtoNs(little, |s| % 0x1_0000) + Sum(little, src) + Sum(little, dst)
  }

  function HtoNs(little: bool, w: Short): Short {
    if little then Swap(w) else w
  }

  /** The bytes of a 16-bit number as the processor stores it. */
  function Stored(little: bool, w: Short): seq<byte> {
    if little then [w % 256, w / 256] else [w / 256, w % 256]
  }

  lemma StoredWord(little: bool, w: Short)
    ensures Word16(little, Stored(little, w)[0], Stored(little, w)[1]) == w
  {}

  /** The bytes that the pseudo-header checksum is over: addresses, protocol, length in network order, and payload. */
  ghost function WithPseudo(little: bool, s: seq<byte>, protocol: Short, src: seq<byte>, dst: seq<byte>): seq<byte>
    requires |s| < 0x1_0000
  {
    src + dst + Stored(little, protocol) + [|s| / 256, |s| % 256] + s
  }

  /** A number in network order is the word that has its high byte first in memory. */
  lemma NetworkOrder(little: bool, w: Short)
    ensures Word16(little, w / 256, w % 256) == HtoNs(little, w) && Stored(little, HtoNs(little, w)) == [w / 256, w % 256]
  {
    if little {
      HighLow(w % 256, w / 256);
    }
  }

  lemma HighLow(h: byte, l: byte)
    ensures (h * 256 + l) / 256 == h && (h * 256 + l) % 256 == l
  {}

  lemma SumPair(little: bool, a: byte, b: byte)
    ensures Sum(little, [a, b]) == Word16(little, a, b)
  {
    assert [a, b][2..] == [];
  }

  /** The pseudo-header sum is the sum of those bytes. */
  lemma PseudoFlat(little: bool, s: seq<byte>, protocol: Short, src: seq<byte>, dst: seq<byte>)
    requires |s| < 0x1_0000 && |src| % 2 == 0 && |dst| % 2 == 0
    ensures PseudoSum(little, s, protocol, src, dst) == Sum(little, WithPseudo(little, s, protocol, src, dst))
  {
    hide Sum, Word16;
    var st, len := Stored(little, protocol), [|s| / 256, |s| % 256];
    StoredWord(little, protocol);
    SumPair(little, st[0], st[1]);
    NetworkOrder(little, |s|);
    SumPair(little, len[0], len[1]);
    assert st == [st[0], st[1]];
    SumConcat(little, src, dst);
    SumConcat(little, src + dst, st);
    SumConcat(little, src + dst + st, len);
    SumConcat(little, src + dst + st + len, s);
  }

  /** fnet_checksum_pseudo_buf. */
  method PseudoBuf(little: bool, buf: seq<byte>, protocol: Short, src: seq<byte>, dst: seq<byte>) returns (c: Short)
    requires |buf| < 0x1_0000 && |src| == |dst| <= 16
    ensures c == 0xffff - Residue(PseudoSum(little, buf, protocol, src, dst))
    ensures |src| % 2 == 0 ==> c == Checksum(little, src + dst + Stored(little, protocol) + [|buf| / 256, |buf| % 256] + buf)
  {
    hide Sum, Residue, HtoNs, Fold, Add32, Stored;
    if |src| % 2 == 0 {
      PseudoFlat(little, buf, protocol, src, dst);
    }
    assert buf[..|buf|] == buf && src[..|src|] == src && dst[..|dst|] == dst;
    PseudoFits(little, buf, protocol, src, dst);
    ghost var p := protocol + HtoNs(little, |buf|);
    AddWrap(0, Sum(little, buf), p);
    AddWrap(0, Sum(little, buf) + p, Sum(little, src));
    AddWrap(0, Sum(little, buf) + p + Sum(little, src), Sum(little, dst));
    AddNone(PseudoSum(little, buf, protocol, src, dst));
    var sum := Low(little, 0, buf, |buf|);
    AddBounds(0, Sum(little, buf));
    sum := Add32(sum, protocol + HtoNs(little, |buf|));
    AddBounds(0, Sum(little, buf) + p);
    sum := Low(little, sum, src, |src|);
    AddBounds(0, Sum(little, buf) + p + Sum(little, src));
    sum := Low(little, sum, dst, |dst|);
    FoldIsResidue(sum);
    c := 0xffff - Fold(sum);
  }

  lemma AddBounds(a: nat, b: nat)
    ensures Add32(a, b) < WORD
  {}

  lemma AddSmall(a: nat, b: nat)
    requires a + b < WORD
    ensures Add32(a, b) == a + b
  {}

  lemma AddNone(a: nat)
    requires a < WORD
    ensures Add32(0, a) == a
  {}

  lemma PseudoFits(little: bool, s: seq<byte>, protocol: Short, src: seq<byte>, dst: seq<byte>)
    requires |s| < 0x1_0000 && |src| == |dst| <= 16
    ensures PseudoSum(little, s, protocol, src, dst) < WORD
  {
    hide Sum, Swap;
    SumBound(little, s);
    SumBound(little, src);
    SumBound(little, dst);
  }

  /** fnet_checksum_pseudo_start: folded, but not complemented. */
  method PseudoStart(little: bool, m: Mem, nb: Ptr, len: nat, protocol: Short, ghost ps: seq<Ptr>) returns (c: Short)
    requires WF(m) && List(m.bufs, nb, ps) && nb != NULL && len <= |Bytes(m, ps)| && WordsWhole(m, ps, len) && len < 0x1_0000
    ensures c == Residue(Sum(little, Bytes(m, ps)[..len]) + protocol + HtoNs(little, len))
  {
    hide WF, List, Bytes, WordsWhole, Sum, Residue, Swap, Fold, Add32, HtoNs;
    var sum := ChainSum(little, m, nb, len, ps);
    SumBound(little, Bytes(m, ps)[..len]);
    AddSmall(0, Sum(little, Bytes(m, ps)[..len]));
    AddSmall(Sum(little, Bytes(m, ps)[..len]), protocol + HtoNs(little, len));
    sum := Add32(sum, protocol + HtoNs(little, len));
    FoldIsResidue(sum);
    c := Fold(sum);
  }

  /** fnet_checksum_pseudo_end. */
  method PseudoEnd(little: bool, start: Short, src: seq<byte>, dst: seq<byte>) returns (c: Short)
    requires |src| == |dst| <= 16
    ensures c == 0xffff - Residue(start + Sum(little, src) + Sum(little, dst))
  {
    hide Sum, Residue, Fold, Add32;
    assert src[..|src|] == src && dst[..|dst|] == dst;
    SumBound(little, src);
    SumBound(little, dst);
    AddSmall(start, Sum(little, src));
    AddSmall(start + Sum(little, src), Sum(little, dst));
    var sum := Low(little, start, src, |src|);
    sum := Low(little, sum, dst, |dst|);
    FoldIsResidue(sum);
    c := 0xffff - Fold(sum);
  }

  // ----- what the checksum is for

  /** Starting over a chain and ending later gives the one-shot checksum of the flattened bytes. */
  lemma StartThenEnd(little: bool, s: seq<byte>, protocol: Short, src: seq<byte>, dst: seq<byte>)
    requires |s| < 0x1_0000 && |src| % 2 == 0 && |dst| % 2 == 0
    ensures 0xffff - Residue(Residue(Sum(little, s) + protocol + HtoNs(little, |s|)) + Sum(little, src) + Sum(little, dst))
         == Checksum(little, src + dst + Stored(little, protocol) + [|s| / 256, |s| % 256] + s)
  {
    hide Residue, Sum, HtoNs, Stored, PseudoSum, WithPseudo, Checksum;
    StartedSum(little, s, protocol, src, dst);
    PseudoBytes(little, s, protocol, src, dst);
    ChecksumIs(little, WithPseudo(little, s, protocol, src, dst));
  }

  lemma ChecksumIs(little: bool, s: seq<byte>)
    ensures Checksum(little, s) == 0xffff - Residue(Sum(little, s))
  {}

  lemma StartedSum(little: bool, s: seq<byte>, protocol: Short, src: seq<byte>, dst: seq<byte>)
    requires |s| < 0x1_0000 && |src| % 2 == 0 && |dst| % 2 == 0
    ensures Residue(Residue(Sum(little, s) + protocol + HtoNs(little, |s|)) + Sum(little, src) + Sum(little, dst))
         == Residue(Sum(little, WithPseudo(little, s, protocol, src, dst)))
  {
    hide Residue, Sum, HtoNs, PseudoSum, WithPseudo;
    ResidueEnd(Sum(little, s) + protocol + HtoNs(little, |s|), Sum(little, src), Sum(little, dst));
    PseudoParts(little, s, protocol, src, dst);
    PseudoFlat(little, s, protocol, src, dst);
  }

  lemma ResidueEnd(a: nat, x: nat, y: nat)
    ensures Residue(Residue(a) + x + y) == Residue(a + x + y)
  {
    hide Residue;
    ResidueAdd(a, x + y);
    assert Residue(a) + x + y == Residue(a) + (x + y);
  }

  lemma PseudoParts(little: bool, s: seq<byte>, protocol: Short, src: seq<byte>, dst: seq<byte>)
    requires |s| < 0x1_0000
    ensures PseudoSum(little, s, protocol, src, dst)
         == Sum(little, s) + protocol + HtoNs(little, |s|) + Sum(little, src) + Sum(little, dst)
  {
    hide Sum, HtoNs;
    assert |s| % 0x1_0000 == |s|;
  }

  lemma PseudoBytes(little: bool, s: seq<byte>, protocol: Short, src: seq<byte>, dst: seq<byte>)
    requires |s| < 0x1_0000
    ensures WithPseudo(little, s, protocol, src, dst) == src + dst + Stored(little, protocol) + [|s| / 256, |s| % 256] + s
  {}

  /**
    The checksum of a datagram as its protocol computes it: started over the chain, with the protocol's number
    in network order, and ended with the addresses.
   */
  method PseudoNb(little: bool, m: Mem, nb: Ptr, len: nat, protocol: byte, src: seq<byte>, dst: seq<byte>, ghost ps: seq<Ptr>)
      returns (c: Short)
    requires WF(m) && List(m.bufs, nb, ps) && nb != NULL && len <= |Bytes(m, ps)| && WordsWhole(m, ps, len) && len < 0x1_0000
    requires |src| == |dst| <= 16 && |src| % 2 == 0
    ensures c == Checksum(little, src + dst + [0, protocol] + [len / 256, len % 256] + Bytes(m, ps)[..len])
  {
    hide WF, List, Bytes, WordsWhole, Sum, Residue, Swap, Stored, Checksum;
    NetworkOrder(little, protocol);
    StartThenEnd(little, Bytes(m, ps)[..len], HtoNs(little, protocol), src, dst);
    var start := PseudoStart(little, m, nb, len, HtoNs(little, protocol), ps);
    c := PseudoEnd(little, start, src, dst);
  }

  /** The example of section 3 of RFC 1071. */
  lemma Example()
    ensures Checksum(false, [0x00, 0x01, 0xf2, 0x03, 0xf4, 0xf5, 0xf6, 0xf7]) == 0xffff - 0xddf2
  {
    var s: seq<byte> := [0x00, 0x01, 0xf2, 0x03, 0xf4, 0xf5, 0xf6, 0xf7];
    assert s[2..][2..] == s[4..] && s[4..][2..] == s[6..] && s[6..][2..] == [];
    assert Sum(false, s[6..]) == 0xf6f7;
    assert Sum(false, s[4..]) == 0xf4f5 + 0xf6f7;
    assert Sum(false, s[2..]) == 0xf203 + 0xf4f5 + 0xf6f7;
  }

  /** Writing a word into a zero field adds it to the sum. */
  lemma SumField(little: bool, a: seq<byte>, w: Short, b: seq<byte>)
    requires |a| % 2 == 0
    ensures Sum(little, a + Stored(little, w) + b) == Sum(little, a + [0, 0] + b) + w
  {
    var st := Stored(little, w);
    StoredWord(little, w);
    SumConcat(little, a + st, b);
    SumConcat(little, a, st);
    SumConcat(little, a + [0, 0], b);
    SumConcat(little, a, [0, 0]);
    assert Sum(little, st[2..]) == 0 && Sum(little, [0, 0][2..]) == 0;
  }

  /**
    A number stored in the zero field at an even offset makes the check come out zero exactly when it is
    the checksum, or the other zero of one's complement when the checksum is 0.
   */
  lemma VerifyIff(little: bool, a: seq<byte>, b: seq<byte>, w: Short)
    requires |a| % 2 == 0
    ensures var c := Checksum(little, a + [0, 0] + b);
            Checksum(little, a + Stored(little, w) + b) == 0 <==> w == c || (w == 0xffff && c == 0)
  {
    hide Sum, Residue, Stored;
    SumField(little, a, w, b);
    ResidueFull(Sum(little, a + [0, 0] + b), w);
  }

  lemma ResidueFull(t: nat, w: Short)
    ensures Residue(t + w) == 0xffff <==> w == 0xffff - Residue(t) || (w == 0xffff && Residue(t) == 0xffff)
  {
    hide Residue;
    ResidueAdd(t, w);
    SmallResidue(Residue(t) + w);
  }

  lemma SmallResidue(r: nat)
    requires r <= 2 * 0xffff
    ensures Residue(r) == if r <= 0xffff then r else r - 0xffff
  {}

  /** The two representations of zero in one's complement. */
  predicate TwoZeros(x: Short, y: Short) {
    (x == 0 && y == 0xffff) || (x == 0xffff && y == 0)
  }

  /** Replacing one word at an even offset goes unnoticed only between the two zeros, beside other non-zero data. */
  lemma ChangeNoticed(little: bool, a: seq<byte>, b: seq<byte>, x: Short, y: Short)
    requires |a| % 2 == 0
    ensures Checksum(little, a + Stored(little, x) + b) == Checksum(little, a + Stored(little, y) + b)
       <==> x == y || (TwoZeros(x, y) && Sum(little, a + [0, 0] + b) != 0)
  {
    hide Sum;
    SumField(little, a, x, b);
    SumField(little, a, y, b);
    var t := Sum(little, a + [0, 0] + b);
    ResidueDiffer(t, x, y);
  }

  lemma ResidueDiffer(t: nat, x: Short, y: Short)
    ensures Residue(t + x) == Residue(t + y) <==> x == y || (TwoZeros(x, y) && t != 0)
  {
    hide Residue;
    var j := ResidueOf(t + x);
    var k := ResidueOf(t + y);
    if TwoZeros(x, y) && t != 0 {
      SameResidue(t + x, t + y, if x == 0 then -1 else 1);
    }
    if Residue(t + x) == Residue(t + y) && x != y {
      assert x + 0xffff * k == y + 0xffff * j;
      assert j == k + 1 || k == j + 1;
    }
  }

  // ----- byte order

  lemma SwapTimes256(w: Short) returns (k: int)
    ensures Swap(w) == 256 * w + 0xffff * k
  {
    k := -(w / 256);
    assert w == w / 256 * 256 + w % 256;
  }

  /** The little-endian sum is 256 times the big-endian one, modulo 65535. */
  lemma {:induction false} SumSwapped(s: seq<byte>) returns (k: int)
    ensures Sum(true, s) == 256 * Sum(false, s) + 0xffff * k
    ensures Sum(true, s) == 0 <==> Sum(false, s) == 0
  {
    hide Sum, Swap, Word16;
    SumParts(true, s);
    SumParts(false, s);
    if s == [] {
      k := 0;
    } else {
      var last := if |s| == 1 then 0 else s[1];
      SwapWord(s[0], last);
      k := SwapTimes256(Word16(false, s[0], last));
      if |s| > 1 {
        var i := SumSwapped(s[2..]);
        k := i + k;
      }
    }
  }

  lemma SumParts(little: bool, s: seq<byte>)
    ensures s == [] ==> Sum(little, s) == 0
    ensures |s| == 1 ==> Sum(little, s) == Word16(little, s[0], 0)
    ensures |s| > 1 ==> Sum(little, s) == Word16(little, s[0], s[1]) + Sum(little, s[2..])
  {}

  /** The same two bytes, read in the other order. */
  lemma SwapWord(a: byte, b: byte)
    ensures Word16(true, a, b) == Swap(Word16(false, a, b)) && (Word16(true, a, b) == 0 <==> Word16(false, a, b) == 0)
  {}

  lemma SwapResidue(r: Short)
    ensures Residue(256 * r) == Swap(r)
  {
    var k := SwapTimes256(r);
    SameResidue(256 * r, Swap(r), -k);
    assert Residue(Swap(r)) == Swap(r);
  }

  lemma Scaled(n: nat)
    ensures Residue(256 * n) == Residue(256 * Residue(n))
  {
    var k := ResidueOf(n);
    SameResidue(256 * n, 256 * Residue(n), 256 * k);
  }

  /** Both byte orders compute the same checksum bytes, for odd lengths too. */
  lemma ByteOrderIndependent(s: seq<byte>)
    ensures Checksum(true, s) == Swap(Checksum(false, s))
    ensures Stored(true, Checksum(true, s)) == Stored(false, Checksum(false, s))
  {
    hide Sum, Residue, Swap, Stored;
    var k := SumSwapped(s);
    var big, little := Sum(false, s), Sum(true, s);
    SameResidue(little, 256 * big, k);
    Scaled(big);
    SwapResidue(Residue(big));
    SwapComplement(Residue(big));
    StoredSwap(Checksum(false, s));
  }

  lemma SwapComplement(r: Short)
    ensures Swap(0xffff - r) == 0xffff - Swap(r)
  {
    var h, l := r / 256, r % 256;
    assert 0xffff - r == 256 * (255 - h) + (255 - l);
  }

  lemma StoredSwap(w: Short)
    ensures Stored(true, Swap(w)) == Stored(false, w)
  {}
}
