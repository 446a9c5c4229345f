/**
  The memory pool (Sources/fnet_stack/stack/fnet_mempool.c): a best-fit allocator that keeps its free
  blocks on a circular list through the headers in the arena.  Pointers are unit indices; `size` and
  `ptr` are the two header words of every unit.  `free` and `live` are what the headers mean: the
  free blocks in address order and the allocated blocks.
 */
module MemPools {
  import opened Words
  import opened FreeBlocks
  import opened BlockRing

  /** sizeof(struct fnet_mempool) on the 32-bit target. */
  const POOL_HEADER: nat := 8

  /** Header unit plus payload units; the rounding-up addition is done in 32 bits. */
  function NUnits(nbytes: nat, unit: nat): (u: nat)
    requires unit > 0
    ensures u > 0
  {
    (nbytes + unit - 1) % WORD / unit + 1
  }

  /** Block `k` is a smallest one that holds `u` units. */
  ghost predicate BestFit(f: seq<Block>, k: nat, u: nat) {
    && k < |f| && f[k].size >= u
    && forall i :: 0 <= i < |f| && f[i].size >= u ==> f[k].size <= f[i].size
  }

  /** Block `k` is the first of its size on the ring after block `j`. */
  ghost predicate FirstFrom(f: seq<Block>, j: nat, k: nat) {
    && j < |f| && k < |f|
    && forall i :: 0 <= i < |f| && f[i].size == f[k].size ==> Steps(j, k, |f|) <= Steps(j, i, |f|)
  }

  /** Of the blocks on the ring after block `j` and before block `at` that suffice, `k` is the first smallest. */
  ghost predicate BestBefore(f: seq<Block>, j: nat, at: nat, u: nat, found: bool, k: nat) {
    && j < |f| && at < |f| && (found ==> k < |f| && f[k].size >= u && Steps(j, k, |f|) < Steps(j, at, |f|))
    && forall i :: 0 <= i < |f| && Steps(j, i, |f|) < Steps(j, at, |f|) && f[i].size >= u ==>
         found && (f[k].size < f[i].size || (f[k].size == f[i].size && Steps(j, k, |f|) <= Steps(j, i, |f|)))
  }

  lemma BestStart(f: seq<Block>, j: nat, u: nat)
    requires j < |f|
    ensures BestBefore(f, j, Next(j, |f|), u, false, 0)
  {}

  lemma StepsOn(j: nat, at: nat, i: nat, k: nat)
    requires j < k && at < k && i < k
    ensures 0 < Steps(j, at, k) <= k && (Steps(j, i, k) == Steps(j, at, k) <==> i == at)
    ensures Steps(j, i, k) <= Steps(j, j, k)
    ensures Next(at, k) < k && (at != j ==> Steps(j, Next(at, k), k) == Steps(j, at, k) + 1)
  {}

  /** One block of the walk. */
  lemma BestOn(f: seq<Block>, j: nat, at: nat, u: nat, found: bool, k: nat)
    requires BestBefore(f, j, at, u, found, k)
    ensures var better := f[at].size >= u && (!found || f[k].size > f[at].size);
            var found', k' := found || better, if better then at else k;
            && (at != j ==> BestBefore(f, j, Next(at, |f|), u, found', k') && Steps(j, at, |f|) < Steps(j, Next(at, |f|), |f|) <= |f|)
            && (at == j ==> (found' <==> SomeFits(f, u)) && (found' ==> BestFit(f, k', u) && FirstFrom(f, j, k')))
  {
    hide Steps, Next;
    StepsOn(j, at, at, |f|);
    forall i | 0 <= i < |f|
      ensures Steps(j, i, |f|) == Steps(j, at, |f|) <==> i == at
      ensures Steps(j, i, |f|) <= Steps(j, j, |f|)
    {
      StepsOn(j, at, i, |f|);
    }
    StepsOn(j, Next(at, |f|), at, |f|);
  }

  ghost predicate SomeFits(f: seq<Block>, u: nat) {
    exists i :: 0 <= i < |f| && f[i].size >= u
  }

  /** Where the search of free ends: between two blocks of the ring, or at its start or end in the arena. */
  predicate StopsAt(p: nat, next: nat, bp: nat) {
    (bp > p && bp < next) || (p >= next && (bp > p || bp < next))
  }

  /** The only free block is exactly as large as the request. */
  predicate LastBlock(f: seq<Block>, u: nat) {
    |f| == 1 && f[0].size == u
  }

  /** The only free block begins where `b` ends. */
  predicate JustBelow(f: seq<Block>, b: Block) {
    |f| == 1 && f[0].start == b.End()
  }

  ghost predicate Headers(size: seq<nat>, live: set<Block>) {
    forall b :: b in live ==> b.start < |size| && size[b.start] == b.size
  }

  /** Headers and free pointer hold exactly the free list `f` and the allocated blocks `live`. */
  ghost predicate Holds(size: seq<nat>, ptr: seq<nat>, freePtr: nat, f: seq<Block>, live: set<Block>, n: nat) {
    && |size| == n
    && Linked(size, ptr, f) && On(f, freePtr)
    && Tiled(f, live, n)
    && Headers(size, live)
  }

  /** The header of the piece cut from the top of block `k` is on no free or allocated block. */
  lemma TopOff(f: seq<Block>, live: set<Block>, k: nat, u: nat, n: nat)
    requires Tiled(f, live, n) && k < |f| && 0 < u < f[k].size
    ensures !On(f, f[k].End() - u)
    ensures forall b :: b in live ==> b.start != f[k].End() - u && b.start != f[k].start
  {
    forall b | b in live ensures b.start != f[k].End() - u && b.start != f[k].start {
      LiveFits(f, live, b, n);
    }
  }

  /** The header of a free block. */
  lemma HeaderOf(size: seq<nat>, ptr: seq<nat>, freePtr: nat, f: seq<Block>, live: set<Block>, n: nat, k: nat)
    requires Holds(size, ptr, freePtr, f, live, n) && k < |f|
    ensures Only(f, k) && f[k].size > 0 && f[k].End() <= n == |ptr|
    ensures size[f[k].start] == f[k].size && On(f, f[k].start)
    ensures ptr[f[k].start] == f[Next(k, |f|)].start
    ensures exists j: nat :: j < |f| && f[j].start == freePtr
  {}

  lemma HoldsCut(size: seq<nat>, ptr: seq<nat>, freePtr: nat, f: seq<Block>, live: set<Block>, n: nat, k: nat, u: nat, p: nat)
    requires Holds(size, ptr, freePtr, f, live, n) && k < |f| && 0 < u < f[k].size && On(f, p)
    ensures f[k].End() - u < n
    ensures Holds(size[f[k].start := f[k].size - u][f[k].End() - u := u], ptr, p,
                  f[k := Block(f[k].start, f[k].size - u)], live + {Block(f[k].End() - u, u)}, n)
  {
    hide Sorted, Disjoint, Tiled, Linked, On, Only;
    HeaderOf(size, ptr, freePtr, f, live, n, k);
    TopOff(f, live, k, u, n);
    LinkedResize(size, ptr, f, k, f[k].size - u, f[k].End() - u, u);
    OnResize(f, k, f[k].size - u, p);
    CarveTiled(f, live, k, u, n);
  }

  lemma HoldsUnlink(size: seq<nat>, ptr: seq<nat>, freePtr: nat, f: seq<Block>, live: set<Block>, n: nat, k: nat, m: nat)
    requires Holds(size, ptr, freePtr, f, live, n) && |f| > 1 && m < |f| && k == Next(m, |f|)
    ensures f[m].start < |ptr| && f[k].start < |ptr|
    ensures Holds(size, ptr[f[m].start := ptr[f[k].start]], f[m].start,
                  f[..k] + f[k + 1..], live + {Block(f[k].start, f[k].size)}, n)
  {
    hide Sorted, Disjoint, Tiled, Linked, On, Only;
    HeaderOf(size, ptr, freePtr, f, live, n, k);
    HeaderOf(size, ptr, freePtr, f, live, n, m);
    LinkedUnlink(size, ptr, f, k, m);
    CarveTiled(f, live, k, f[k].size, n);
  }

  /** How many free blocks begin below address `a`. */
  lemma {:induction false} CountBelow(f: seq<Block>, n: nat, a: nat) returns (k: nat)
    requires Sorted(f, n)
    ensures k <= |f| && forall i :: 0 <= i < |f| ==> (i < k <==> f[i].start < a)
  {
    if f == [] || f[|f| - 1].start < a {
      k := |f|;
    } else {
      k := CountBelow(f[..|f| - 1], n, a);
    }
  }

  /** An allocated block about to be freed, between its free neighbours. */
  lemma LiveBetween(size: seq<nat>, ptr: seq<nat>, freePtr: nat, f: seq<Block>, live: set<Block>, n: nat, b: Block) returns (k: nat)
    requires Holds(size, ptr, freePtr, f, live, n) && b in live
    ensures Fits(f, k, b) && b.End() <= n && b.start < |size| && size[b.start] == b.size
    ensures forall i :: 0 <= i < |f| ==> (i < k <==> f[i].start < b.start)
    ensures Only(f, Before(k, |f|))
    ensures k > 0 && Lo(f, k, b) < k ==> Only(UpList(f, k, b), k - 1)
  {
    k := CountBelow(f, n, b.start);
    LiveFits(f, live, b, n);
  }

  /** The two header words of the whole arena after `b` is freed after block `p`, step by step as free writes them. */
  ghost function FreedSize(size: seq<nat>, ptr: seq<nat>, p: nat, b: Block): seq<nat>
    requires p < |ptr| == |size| && b.start < |size| && ptr[p] < |size|
  {
    var s := UpSize(size, ptr, p, b);
    if p + s[p] == b.start then s[p := s[p] + s[b.start]] else s
  }

  ghost function FreedPtr(size: seq<nat>, ptr: seq<nat>, p: nat, b: Block): seq<nat>
    requires p < |ptr| == |size| && b.start < |size| && ptr[p] < |size|
  {
    var s, l := UpSize(size, ptr, p, b), UpPtr(ptr, p, b);
    l[p := if p + s[p] == b.start then l[b.start] else b.start]
  }

  lemma FreedLinked(size: seq<nat>, ptr: seq<nat>, f: seq<Block>, k: nat, b: Block)
    requires Linked(size, ptr, f) && |size| == |ptr| && 0 < |f| && k <= |f|
    requires Fits(f, k, b) && !JustBelow(f, b) && Only(f, Before(k, |f|))
    requires b.start < |size| && size[b.start] == b.size
    requires k > 0 && Lo(f, k, b) < k ==> Only(UpList(f, k, b), k - 1)
    requires var p := f[Before(k, |f|)].start; p < |ptr| && ptr[p] < |size|
    ensures var p := f[Before(k, |f|)].start;
            Linked(FreedSize(size, ptr, p, b), FreedPtr(size, ptr, p, b), Insert(f, k, b)) && On(Insert(f, k, b), p)
  {
    hide Linked, Fits, On, Only, Insert, UpList, Hi, UpSize, UpPtr;
    var p := f[Before(k, |f|)].start;
    UpLinked(size, ptr, f, k, b);
    var s, l := UpSize(size, ptr, p, b), UpPtr(ptr, p, b);
    UpLengths(size, ptr, p, b);
    if Lo(f, k, b) < k {
      DownMerge(s, l, f, k, b);
    } else {
      DownLink(s, l, f, k, b);
    }
  }

  lemma UpLengths(size: seq<nat>, ptr: seq<nat>, p: nat, b: Block)
    requires p < |ptr| == |size| && b.start < |size| && ptr[p] < |size|
    ensures |UpSize(size, ptr, p, b)| == |size| && |UpPtr(ptr, p, b)| == |ptr|
  {}

  /** Freeing touches the headers of `b` and of a free block only. */
  lemma FreedHeaders(size: seq<nat>, ptr: seq<nat>, f: seq<Block>, live: set<Block>, n: nat, m: nat, b: Block)
    requires Tiled(f, live, n) && Headers(size, live) && b in live && m < |f|
    requires f[m].start < |ptr| == |size| && b.start < |size| && ptr[f[m].start] < |size|
    ensures Headers(FreedSize(size, ptr, f[m].start, b), live - {b})
  {
    var t := FreedSize(size, ptr, f[m].start, b);
    forall c | c in live - {b} ensures c.start < |t| && t[c.start] == c.size {
      LiveFits(f, live, c, n);
    }
  }

  lemma HoldsFreed(size: seq<nat>, ptr: seq<nat>, freePtr: nat, f: seq<Block>, live: set<Block>, n: nat, k: nat, b: Block)
    requires Holds(size, ptr, freePtr, f, live, n) && b in live && k <= |f| && 0 < |f|
    requires Fits(f, k, b) && !JustBelow(f, b) && Only(f, Before(k, |f|))
    requires b.start < |size| && size[b.start] == b.size
    requires k > 0 && Lo(f, k, b) < k ==> Only(UpList(f, k, b), k - 1)
    requires forall i :: 0 <= i < |f| ==> (i < k <==> f[i].start < b.start)
    ensures var p := f[Before(k, |f|)].start;
            && p < |ptr| == |size| && b.start < |size| && ptr[p] < |size|
            && Holds(FreedSize(size, ptr, p, b), FreedPtr(size, ptr, p, b), p, Insert(f, k, b), live - {b}, n)
  {
    hide Linked, Tiled, Sorted, Disjoint, Headers, On, Only, Fits, Insert, UpList, FreedPtr, Lo;
    HeaderOf(size, ptr, freePtr, f, live, n, Before(k, |f|));
    HeaderOf(size, ptr, freePtr, f, live, n, Next(Before(k, |f|), |f|));
    FreedLinked(size, ptr, f, k, b);
    FreedHeaders(size, ptr, f, live, n, Before(k, |f|), b);
    InsertTiled(f, live, k, b, n);
    hide UpSize;
    UpLengths(size, ptr, f[Before(k, |f|)].start, b);
  }

  /** The ring search's stop test: only the last block's link does not lead upwards. */
  lemma WrapOnly(f: seq<Block>, n: nat)
    requires Sorted(f, n)
    ensures forall i :: 0 <= i < |f| ==> (f[i].start < f[Next(i, |f|)].start <==> i + 1 < |f|)
  {}

  /** Freed back, the units a request took make the free list what it was. */
  lemma BestFitAbove(f: seq<Block>, k: nat, u: nat, n: nat)
    requires Sorted(f, n) && k < |f| && 0 < u <= f[k].size && !LastBlock(f, u)
    ensures !JustBelow(Carve(f, k, u), Block(f[k].End() - u, u))
  {
    var g := Carve(f, k, u);
    if |g| == 1 && f[k].size == u {
      assert g[0] == f[1 - k];
    }
  }

  /** The base block keeps its header on the ring unless a request takes it whole. */
  lemma BaseStays(f: seq<Block>, k: nat, u: nat)
    requires k < |f| && u <= f[k].size && f[0].start == 0 && !(k == 0 && f[0].size == u)
    ensures Carve(f, k, u) != [] && Carve(f, k, u)[0].start == 0
  {}

  /** A request takes the base block whole exactly when what it takes begins at the base. */
  lemma BaseKept(f: seq<Block>, k: nat, u: nat, n: nat)
    requires Sorted(f, n) && k < |f| && u <= f[k].size
    ensures f[0].start == 0 ==> (f[k].End() - u == 0 <==> k == 0 && f[0].size == u)
    ensures f[0].start == 0 && !(k == 0 && f[0].size == u) ==>
              !LastBlock(f, u) && Carve(f, k, u) != [] && Carve(f, k, u)[0].start == 0
  {
    if f[0].start == 0 && !(k == 0 && f[0].size == u) {
      BaseStays(f, k, u);
    }
  }

  lemma BaseInsert(f: seq<Block>, k: nat, b: Block)
    requires Fits(f, k, b) && f[0].start == 0
    ensures Insert(f, k, b)[0].start == 0 && !JustBelow(f, b)
  {}

  lemma HoldsParts(size: seq<nat>, ptr: seq<nat>, freePtr: nat, f: seq<Block>, live: set<Block>, n: nat)
    requires Holds(size, ptr, freePtr, f, live, n)
    ensures |f| > 0 && |size| == |ptr| == n && Sorted(f, n) && Tiled(f, live, n)
    ensures forall i :: 0 <= i < |f| ==> f[i].start < n
  {}

  /** A header that belongs before the only free block and touches it breaks the ring. */
  lemma FreedBroken(size: seq<nat>, ptr: seq<nat>, freePtr: nat, f: seq<Block>, live: set<Block>, n: nat, b: Block)
    requires Holds(size, ptr, freePtr, f, live, n) && JustBelow(f, b) && b in live
    ensures var p := f[0].start;
            p < |ptr| == |size| && b.start < |size| && ptr[p] < |size| &&
            forall g :: Linked(FreedSize(size, ptr, p, b), FreedPtr(size, ptr, p, b), g) && On(g, p) ==> !Sorted(g, n)
  {
    hide Tiled, Sorted, Disjoint;
    HeaderOf(size, ptr, freePtr, f, live, n, 0);
    var p := f[0].start;
    var k := LiveBetween(size, ptr, freePtr, f, live, n, b);
    forall g | Linked(FreedSize(size, ptr, p, b), FreedPtr(size, ptr, p, b), g) && On(g, p) ensures !Sorted(g, n) {
      DownBroken(FreedSize(size, ptr, p, b), FreedPtr(size, ptr, p, b), p, b, f[0].size, g, n);
    }
  }

  /** What freeing block `b` does to the headers, the free list and the allocated blocks. */
  lemma FreeOutcome(size: seq<nat>, ptr: seq<nat>, freePtr: nat, f: seq<Block>, live: set<Block>, n: nat, b: Block) returns (k: nat)
    requires Holds(size, ptr, freePtr, f, live, n) && b in live
    ensures k <= |f| && 0 < |f| && On(f, freePtr) && Linked(size, ptr, f)
    ensures forall i :: 0 <= i < |f| ==> f[i].start != b.start && (i < k <==> f[i].start < b.start)
    ensures forall i :: 0 <= i < |f| ==> (f[i].start < f[Next(i, |f|)].start <==> i + 1 < |f|)
    ensures var p := f[Before(k, |f|)].start;
            && p < |ptr| == |size| && b.start < |size| && size[b.start] == b.size && ptr[p] < |size|
            && (!JustBelow(f, b) ==>
                  && Holds(FreedSize(size, ptr, p, b), FreedPtr(size, ptr, p, b), p, Insert(f, k, b), live - {b}, n)
                  && Units(Insert(f, k, b)) == Units(f) + Span(b))
            && (JustBelow(f, b) ==>
                  forall g :: Linked(FreedSize(size, ptr, p, b), FreedPtr(size, ptr, p, b), g) && On(g, p) ==> !Sorted(g, n))
    ensures f[0].start == 0 ==> Insert(f, k, b)[0].start == 0 && !JustBelow(f, b)
  {
    hide Linked, Tiled, Sorted, Disjoint, Headers, On, Only, Lo, Hi, Insert, Units, UpList;
    HoldsParts(size, ptr, freePtr, f, live, n);
    WrapOnly(f, n);
    k := LiveBetween(size, ptr, freePtr, f, live, n, b);
    if f[0].start == 0 {
      BaseInsert(f, k, b);
    }
    if JustBelow(f, b) {
      FreedBroken(size, ptr, freePtr, f, live, n, b);
    } else {
      HoldsFreed(size, ptr, freePtr, f, live, n, k, b);
      InsertTiled(f, live, k, b, n);
    }
  }

  /** A ring of one block. */
  lemma HoldsOne(size: seq<nat>, ptr: seq<nat>, freePtr: nat, f: seq<Block>, live: set<Block>, n: nat)
    requires Holds(size, ptr, freePtr, f, live, n) && |f| == 1
    ensures freePtr == f[0].start < |ptr| == |size| == n && ptr[freePtr] == freePtr
  {
    hide Tiled, Headers;
  }

  class MemPool {
    const n: nat
    const unitSize: nat
    const size: array<nat>
    const ptr: array<nat>
    var freePtr: nat
    ghost var free: seq<Block>
    ghost var live: set<Block>

    /** `f` is what the headers and the free pointer say the free list is. */
    ghost predicate Ring(f: seq<Block>)
      reads this, size, ptr
    {
      Linked(size[..], ptr[..], f) && On(f, freePtr)
    }

    ghost predicate Valid()
      reads this, size, ptr
    {
      && unitSize > 0
      && size != ptr && size.Length == n == ptr.Length
      && Holds(size[..], ptr[..], freePtr, free, live, n)
    }

    constructor (units: nat, unit: nat)
      requires units > 0 && unit > 0
      ensures Valid() && fresh(size) && fresh(ptr)
      ensures n == units && unitSize == unit && free == [Block(0, units)] && live == {}
    {
      n, unitSize := units, unit;
      size, ptr := new nat[units], new nat[units];
      freePtr := 0;
      free, live := [Block(0, units)], {};
      new;
      size[0] := units;
      ptr[0] := 0;
      assert free[0].start == freePtr;
      UnitsOne(Block(0, units));
      assert LiveUnits({}) == {};
    }

    /** The ring walk of malloc: the first smallest sufficient block after `freePtr`, and the one before it. */
    method FindBest(nunits: nat, ghost j: nat) returns (found: bool, best: nat, bestPrev: nat, ghost k: nat, ghost m: nat)
      requires Ring(free) && j < |free| && free[j].start == freePtr && Only(free, j)
      ensures found <==> SomeFits(free, nunits)
      ensures found ==> BestFit(free, k, nunits) && best == free[k].start && FirstFrom(free, j, k)
      ensures found ==> m < |free| && k == Next(m, |free|) && bestPrev == free[m].start
    {
      hide BestBefore, SomeFits, BestFit, FirstFrom, Steps;
      ghost var at: nat, from: nat := Next(j, |free|), j;
      var prevp := freePtr;
      var p := ptr[prevp];
      found, best, bestPrev, k, m := false, 0, prevp, 0, 0;
      BestStart(free, j, nunits);
      while true
        invariant from < |free| && at == Next(from, |free|)
        invariant p == free[at].start && prevp == free[from].start
        invariant found ==> m < |free| && k == Next(m, |free|) && bestPrev == free[m].start && best == free[k].start
        invariant BestBefore(free, j, at, nunits, found, k)
        decreases |free| - Steps(j, at, |free|)
      {
        BestOn(free, j, at, nunits, found, k);
        if size[p] >= nunits && (!found || size[best] > size[p]) {
          found, best, bestPrev := true, p, prevp;
          k, m := at, from;
        }
        if p == freePtr {
          break;
        }
        prevp, p := p, ptr[p];
        from, at := at, Next(at, |free|);
      }
    }

    /** Exact fit: the block before `k` on the ring skips it, which does nothing when `k` is alone. */
    method Unlink(best: nat, bestPrev: nat, ghost k: nat, ghost m: nat)
      requires Valid()
      requires m < |free| && k == Next(m, |free|) && best == free[k].start && bestPrev == free[m].start
      modifies this, ptr
      ensures |old(free)| > 1 ==>
                Valid() && free == Carve(old(free), k, old(free)[k].size) && live == old(live) + {Block(best, old(free)[k].size)}
      ensures |old(free)| == 1 ==>
                ptr[..] == old(ptr[..]) && freePtr == old(freePtr) && Valid() && free == old(free) && live == old(live)
    {
      hide Linked, Tiled, Sorted, Disjoint, Headers, On, Units, Holds;
      ghost var f, l: seq<nat> := free, ptr[..];
      HeaderOf(size[..], l, freePtr, f, live, n, k);
      HeaderOf(size[..], l, freePtr, f, live, n, m);
      if |f| > 1 {
        HoldsUnlink(size[..], l, freePtr, f, live, n, k, m);
      } else {
        HoldsOne(size[..], l, freePtr, f, live, n);
      }
      ptr[bestPrev] := ptr[best];
      assert ptr[..] == l[bestPrev := l[best]];
      freePtr := bestPrev;
      if |f| > 1 {
        free, live := Carve(f, k, f[k].size), live + {Block(best, f[k].size)};
      } else {
        assert l[bestPrev := l[best]] == l;
      }
    }

    /** Otherwise the request is cut from the top of the block, which keeps its place on the ring. */
    method CutTop(best: nat, bestPrev: nat, nunits: nat, ghost k: nat) returns (b: nat)
      requires Valid() && k < |free| && 0 < nunits < free[k].size
      requires best == free[k].start && On(free, bestPrev)
      modifies this, size
      ensures b == old(free)[k].End() - nunits
      ensures free == Carve(old(free), k, nunits) && live == old(live) + {Block(b, nunits)}
      ensures Valid()
    {
      hide Linked, Tiled, Sorted, Disjoint, Headers, On, Units;
      ghost var s: seq<nat>, f := size[..], free;
      HeaderOf(s, ptr[..], freePtr, f, live, n, k);
      HoldsCut(s, ptr[..], freePtr, f, live, n, k, nunits, bestPrev);
      size[best] := size[best] - nunits;
      b := best + size[best];
      size[b] := nunits;
      assert size[..] == s[best := f[k].size - nunits][b := nunits];
      freePtr := bestPrev;
      free, live := Carve(f, k, nunits), live + {Block(b, nunits)};
    }

    /**
      fnet_mempool_malloc, with 0 as the null pointer and the unit after the header as the result.
      The one request it cannot serve properly is an exact fit of the last free block: the block is
      handed out and nothing in the pool changes, so that it is free for the next request as well.
     */
    method Malloc(nbytes: nat) returns (res: nat, ghost k: nat)
      requires Valid() && nbytes < WORD
      modifies this, size, ptr
      ensures res == 0 <==> !SomeFits(old(free), NUnits(nbytes, unitSize))
      ensures Valid() && (res == 0 ==> free == old(free) && live == old(live))
      ensures res != 0 ==> BestFit(old(free), k, NUnits(nbytes, unitSize))
      ensures res != 0 ==> forall j: nat :: j < |old(free)| && old(free)[j].start == old(freePtr) ==> FirstFrom(old(free), j, k)
      ensures res != 0 ==> res - 1 + NUnits(nbytes, unitSize) == old(free)[k].End()
      ensures res != 0 && !LastBlock(old(free), NUnits(nbytes, unitSize)) ==>
                && free == Carve(old(free), k, NUnits(nbytes, unitSize))
                && live == old(live) + {Block(res - 1, NUnits(nbytes, unitSize))}
      ensures old(free)[0].start == 0 && res != 1 ==> |free| > 0 && free[0].start == 0
      ensures res == 1 && old(free)[0].start == 0 ==> k == 0 && old(free)[0].size == NUnits(nbytes, unitSize)
      ensures res != 0 && LastBlock(old(free), NUnits(nbytes, unitSize)) ==>
                && size[..] == old(size[..]) && ptr[..] == old(ptr[..]) && freePtr == old(freePtr)
                && free == old(free) && live == old(live) && res - 1 == free[0].start
    {
      hide Linked, Tiled, Sorted, Disjoint, Headers, On, Units, Carve;
      var nunits := NUnits(nbytes, unitSize);
      ghost var j := FreeIndex();
      var found, best, bestPrev;
      ghost var m;
      found, best, bestPrev, k, m := FindBest(nunits, j);
      if !found {
        return 0, k;
      }
      HeaderOf(size[..], ptr[..], freePtr, free, live, n, k);
      HeaderOf(size[..], ptr[..], freePtr, free, live, n, m);
      HoldsParts(size[..], ptr[..], freePtr, free, live, n);
      BaseKept(free, k, nunits, n);
      if size[best] == nunits {
        Unlink(best, bestPrev, k, m);
      } else {
        best := CutTop(best, bestPrev, nunits, k);
      }
      res := best + 1;
    }

    /** The list index of the free pointer's block. */
    lemma FreeIndex() returns (j: nat)
      requires Valid()
      ensures j < |free| && free[j].start == freePtr && Only(free, j) && Ring(free)
    {
      j :| j < |free| && free[j].start == freePtr;
    }

    /** The ring walk of free: the block after which a block at `bp` belongs. */
    method FindSpot(bp: nat, ghost k: nat) returns (p: nat)
      requires Ring(free) && k <= |free| && 0 < |free|
      requires forall i :: 0 <= i < |free| ==> free[i].start != bp && (i < k <==> free[i].start < bp)
      requires forall i :: 0 <= i < |free| ==>
                 (free[i].start < free[Next(i, |free|)].start <==> i + 1 < |free|)
      ensures p == free[Before(k, |free|)].start && p < ptr.Length && StopsAt(p, ptr[p], bp)
    {
      ghost var at: nat :| at < |free| && free[at].start == freePtr;
      ghost var to := Before(k, |free|);
      p := freePtr;
      while !StopsAt(p, ptr[p], bp)
        invariant at < |free| && p == free[at].start
        decreases Ahead(at, to, |free|)
      {
        assert ptr[..][p] == free[Next(at, |free|)].start;
        p := ptr[p];
        at := Next(at, |free|);
      }
      assert ptr[..][p] == free[Next(at, |free|)].start;
    }

    /** The block whose payload begins at `ap`, read from its header. */
    ghost function BlockAt(ap: nat): Block
      reads this, size
      requires 0 < ap <= size.Length
    {
      Block(ap - 1, size[ap - 1])
    }

    /** Takes over the block above `bp` and is taken over by the block below it, where they touch. */
    method Coalesce(bp: nat, p: nat)
      requires size != ptr && size.Length == ptr.Length && bp < size.Length && p < size.Length && ptr[p] < size.Length
      modifies size, ptr
      ensures size[..] == FreedSize(old(size[..]), old(ptr[..]), p, old(BlockAt(bp + 1)))
      ensures ptr[..] == FreedPtr(old(size[..]), old(ptr[..]), p, old(BlockAt(bp + 1)))
    {
      ghost var s, l, b := size[..], ptr[..], BlockAt(bp + 1);
      if bp + size[bp] == ptr[p] {
        size[bp] := size[bp] + size[ptr[p]];
        ptr[bp] := ptr[ptr[p]];
      } else {
        ptr[bp] := ptr[p];
      }
      assert size[..] == UpSize(s, l, p, b);
      assert ptr[..] == UpPtr(l, p, b);
      if p + size[p] == bp {
        size[p] := size[p] + size[bp];
        ptr[p] := ptr[bp];
      } else {
        ptr[p] := bp;
      }
    }

    /**
      fnet_mempool_free.  The one block it cannot take back properly is one that ends where the only
      free block begins: afterwards the ring is not a list of disjoint blocks any more.
     */
    method Free(ap: nat)
      requires Valid()
      requires ap > 0 ==> ap <= n && BlockAt(ap) in live
      modifies this, size, ptr
      ensures ap == 0 ==> Valid() && free == old(free) && live == old(live)
      ensures ap > 0 && !JustBelow(old(free), old(BlockAt(ap))) ==>
                && Valid() && live == old(live) - {old(BlockAt(ap))}
                && Units(free) == old(Units(free)) + Span(old(BlockAt(ap)))
      ensures ap > 0 && JustBelow(old(free), old(BlockAt(ap))) ==> forall g :: Ring(g) ==> !Sorted(g, n)
      ensures ap > 0 && old(free)[0].start == 0 ==> free[0].start == 0 && !JustBelow(old(free), old(BlockAt(ap)))
    {
      hide Linked, Tiled, Sorted, Disjoint, Headers, On, Units, Fits, Insert, FreedSize, FreedPtr;
      if ap != 0 {
        var bp := ap - 1;
        ghost var b, f, s: seq<nat>, l: seq<nat> := BlockAt(ap), free, size[..], ptr[..];
        ghost var k := FreeOutcome(s, l, freePtr, f, live, n, b);
        var p := FindSpot(bp, k);
        Coalesce(bp, p);
        freePtr := p;
        free, live := Insert(f, k, b), live - {b};
      }
    }

    /** fnet_mempool_free_mem_status: the free units, counted round the ring. */
    method FreeMemStatus() returns (total: nat)
      requires Valid()
      ensures total == |Units(free)| * unitSize
    {
      hide Linked, Tiled, Sorted, Disjoint, Headers, On, Units, Turn;
      ghost var j := FreeIndex();
      ghost var at: nat := j;
      var t := freePtr;
      HeaderOf(size[..], ptr[..], freePtr, free, live, n, at);
      total := size[t];
      TurnOne(free, j);
      while ptr[t] != freePtr
        invariant at < |free| && t == free[at].start && t < n
        invariant total == Turn(free, j, at)
        decreases |free| - Ahead(j, at, |free|)
      {
        HeaderOf(size[..], ptr[..], freePtr, free, live, n, at);
        TurnStep(free, j, at, Next(at, |free|));
        at := Next(at, |free|);
        HeaderOf(size[..], ptr[..], freePtr, free, live, n, at);
        t := ptr[t];
        total := total + size[t];
      }
      HeaderOf(size[..], ptr[..], freePtr, free, live, n, at);
      HeaderOf(size[..], ptr[..], freePtr, free, live, n, Next(at, |free|));
      TurnAll(free, j, at);
      HoldsParts(size[..], ptr[..], freePtr, free, live, n);
      TotalIsUnits(free, n);
      total := total * unitSize;
    }

    /**
      fnet_mempool_malloc_max: the largest free block in bytes, its header unit included, so that the largest
      request that malloc serves is one unit less.
     */
    method MallocMax() returns (max: nat)
      requires Valid()
      ensures forall u: nat :: SomeFits(free, u) <==> u * unitSize <= max
      ensures forall nbytes: nat :: nbytes + unitSize - 1 < WORD ==>
                (SomeFits(free, NUnits(nbytes, unitSize)) <==> nbytes + unitSize <= max)
    {
      hide Linked, Tiled, Sorted, Disjoint, Headers, On, Units, Holds, Seen, SomeFits, Next, Ahead, NUnits;
      ghost var j := FreeIndex();
      ghost var at: nat, w: nat := j, j;
      var t := freePtr;
      HeaderOf(size[..], ptr[..], freePtr, free, live, n, at);
      SeenOne(free, j);
      max := size[t];
      while ptr[t] != freePtr
        invariant at < |free| && t == free[at].start && t < n
        invariant w < |free| && max == free[w].size && Seen(free, j, at, max)
        decreases |free| - Ahead(j, at, |free|)
      {
        HeaderOf(size[..], ptr[..], freePtr, free, live, n, at);
        SeenMore(free, j, at, max);
        at := Next(at, |free|);
        HeaderOf(size[..], ptr[..], freePtr, free, live, n, at);
        t := ptr[t];
        if size[t] > max {
          max, w := size[t], at;
        }
      }
      HeaderOf(size[..], ptr[..], freePtr, free, live, n, at);
      SeenMore(free, j, at, max);
      OnlyOnce(free, Next(at, |free|), j);
      SeenAll(free, j, at, max);
      LargestFits(free, w, unitSize);
      max := max * unitSize;
    }
  }

  /** No block on the way round from index `j` to index `at` is larger than `max`. */
  ghost predicate Seen(f: seq<Block>, j: nat, at: nat, max: nat) {
    && j < |f| && at < |f|
    && forall i :: 0 <= i < |f| && Ahead(j, i, |f|) <= Ahead(j, at, |f|) ==> f[i].size <= max
  }

  lemma SeenOne(f: seq<Block>, j: nat)
    requires j < |f|
    ensures Seen(f, j, j, f[j].size)
  {}

  lemma SeenMore(f: seq<Block>, j: nat, at: nat, max: nat)
    requires Seen(f, j, at, max)
    ensures Next(at, |f|) < |f|
    ensures var next := Next(at, |f|);
            && (next != j ==> Ahead(j, next, |f|) == Ahead(j, at, |f|) + 1 < |f|)
            && (next != j ==> Seen(f, j, next, if f[next].size > max then f[next].size else max))
  {}

  lemma OnlyOnce(f: seq<Block>, i: nat, j: nat)
    requires i < |f| && Only(f, j) && f[i].start == f[j].start
    ensures i == j
  {}

  lemma SeenAll(f: seq<Block>, j: nat, at: nat, max: nat)
    requires Seen(f, j, at, max) && Next(at, |f|) == j
    ensures forall i :: 0 <= i < |f| ==> f[i].size <= max
  {}

  lemma LargestFits(f: seq<Block>, w: nat, unit: nat)
    requires w < |f| && unit > 0 && forall i :: 0 <= i < |f| ==> f[i].size <= f[w].size
    ensures forall u: nat :: SomeFits(f, u) <==> u * unit <= f[w].size * unit
    ensures forall nbytes: nat :: nbytes + unit - 1 < WORD ==>
              (SomeFits(f, NUnits(nbytes, unit)) <==> nbytes + unit <= f[w].size * unit)
  {
    hide NUnits;
    forall u: nat ensures SomeFits(f, u) <==> u <= f[w].size {
    }
    forall u: nat ensures SomeFits(f, u) <==> u * unit <= f[w].size * unit {
      MulOrder(u, f[w].size, unit);
    }
    forall nbytes: nat | nbytes + unit - 1 < WORD
      ensures SomeFits(f, NUnits(nbytes, unit)) <==> nbytes + unit <= f[w].size * unit
    {
      ServesUpTo(nbytes, unit, f[w].size);
    }
  }

  lemma MulOrder(a: nat, b: nat, c: nat)
    requires c > 0
    ensures a <= b <==> a * c <= b * c
  {
    if a <= b {
      assert (b - a) * c >= 0;
    } else {
      assert (a - b) * c > 0;
    }
  }

  /** Without a wrap, a request is its bytes rounded up to units, and the header unit. */
  lemma UnitsRoundUp(nbytes: nat, unit: nat)
    requires unit > 0 && nbytes + unit - 1 < WORD
    ensures var u := NUnits(nbytes, unit); (u - 2) * unit < nbytes <= (u - 1) * unit
  {
    var t := nbytes + unit - 1;
    assert t % WORD == t;
    assert t == t / unit * unit + t % unit;
    assert (t / unit - 1) * unit == t / unit * unit - unit;
  }

  /** The requests that a block of `w` units serves: those whose bytes fit beside a header unit. */
  lemma ServesUpTo(nbytes: nat, unit: nat, w: nat)
    requires unit > 0 && nbytes + unit - 1 < WORD
    ensures NUnits(nbytes, unit) <= w <==> nbytes + unit <= w * unit
  {
    hide NUnits;
    UnitsRoundUp(nbytes, unit);
    var u := NUnits(nbytes, unit);
    assert (u - 2) * unit == u * unit - 2 * unit && (u - 1) * unit == u * unit - unit;
    if u <= w {
      MulOrder(u, w, unit);
    } else {
      MulOrder(w, u - 1, unit);
    }
  }

  /** A served request has room for its bytes exactly when rounding up did not wrap in 32 bits. */
  lemma PayloadFits(nbytes: nat, unit: nat)
    requires 0 < nbytes < WORD && 0 < unit < WORD
    ensures (NUnits(nbytes, unit) - 1) * unit >= nbytes <==> nbytes + unit - 1 < WORD
  {
    var t := nbytes + unit - 1;
    if t >= WORD {
      assert t % WORD == t - WORD;
    }
  }

  /** Free and allocated units add up to the arena. */
  lemma UnitsConserved(f: seq<Block>, live: set<Block>, n: nat)
    requires Tiled(f, live, n)
    ensures |Units(f)| + |LiveUnits(live)| == n
  {
    SpanSize(Block(0, n));
    assert |Units(f) + LiveUnits(live)| == |Units(f)| + |LiveUnits(live)|;
  }

  /** Where the arena begins: past the pool structure, rounded down to the alignment after adding a unit. */
  function HeapStart(poolPtr: nat, unit: nat): (start: nat)
    requires unit > 0
    ensures start % unit == 0 && poolPtr + 8 < start <= poolPtr + 8 + unit
  {
    MultipleBelow(poolPtr + POOL_HEADER + unit, unit);
    (poolPtr + POOL_HEADER + unit) / unit * unit
  }

  lemma MultipleBelow(a: nat, b: nat)
    requires b > 0
    ensures a / b * b % b == 0 && a / b * b <= a < a / b * b + b
  {
    var q := a / b;
    assert a == q * b + a % b;
    ModOfMultiple(q, b);
  }

  lemma ModOfMultiple(q: nat, b: nat)
    requires b > 0
    ensures q * b % b == 0
  {
    var d, r := q * b / b, q * b % b;
    assert q * b == d * b + r && 0 <= r < b;
    assert r == (q - d) * b;
    if q - d >= 1 {
      MulOrder(1, q - d, b);
    } else if q - d <= -1 {
      MulOrder(1, d - q, b);
    }
  }

  /**
    fnet_mempool_init.  An area with no room for one whole unit is taken as well: the code then writes a
    header of size 0 where the arena would begin, past which nothing of the area is left, and there is no
    arena.
   */
  method Init(poolPtr: nat, poolSize: nat, alignment: nat) returns (taken: bool, pool: MemPool?)
    requires poolPtr + poolSize <= WORD && alignment in {0, 7, 15, 31, 63}
    ensures taken <==> poolPtr != 0 && poolSize > 8 + (if alignment < 7 then 7 else alignment)
    ensures var unit := if alignment < 7 then 8 else alignment + 1;
            && (taken ==> HeapStart(poolPtr, unit) <= poolPtr + poolSize)
            && (pool != null <==> taken && HeapStart(poolPtr, unit) + unit <= poolPtr + poolSize)
    ensures pool != null ==>
              && fresh(pool) && pool.Valid() && pool.free == [Block(0, pool.n)] && pool.live == {}
              && pool.unitSize == (if alignment < 7 then 8 else alignment + 1)
              && HeapStart(poolPtr, pool.unitSize) + pool.n * pool.unitSize <= poolPtr + poolSize
              && poolPtr + poolSize < HeapStart(poolPtr, pool.unitSize) + (pool.n + 1) * pool.unitSize
  {
    hide HeapStart;
    var align := if alignment < 7 then 7 else alignment;
    taken, pool := poolPtr != 0 && poolSize > align + POOL_HEADER, null;
    if taken {
      var heapPtr := HeapStart(poolPtr, align + 1);
      var heapSize := poolSize - (heapPtr - poolPtr);
      if heapSize >= align + 1 {
        DivBounds(heapSize, align + 1);
        pool := new MemPool(heapSize / (align + 1), align + 1);
      }
    }
  }

  lemma DivBounds(a: nat, b: nat)
    requires 0 < b <= a
    ensures 0 < a / b && a / b * b <= a < (a / b + 1) * b
  {
    assert a == a / b * b + a % b;
  }

  /** A request freed at once leaves the free list and the allocated blocks as they were. */
  method MallocThenFree(pool: MemPool, nbytes: nat)
    requires pool.Valid() && nbytes < WORD && !LastBlock(pool.free, NUnits(nbytes, pool.unitSize))
    modifies pool, pool.size, pool.ptr
    ensures pool.Valid() && pool.free == old(pool.free) && pool.live == old(pool.live)
  {
    hide Linked, Sorted, Disjoint, Headers, On, Units, LiveUnits, Carve, NUnits;
    ghost var f, u := pool.free, NUnits(nbytes, pool.unitSize);
    assert Tiled(f, pool.live, pool.n);
    var res, k := pool.Malloc(nbytes);
    if res != 0 {
      ghost var b := Block(res - 1, u);
      NewLive(f, old(pool.live), k, u, pool.n, b);
      LiveHeader(pool, b);
      pool.Free(res);
      assert Tiled(pool.free, pool.live, pool.n);
      Canonical(pool.free, f, pool.n);
    }
  }

  lemma NewLive(f: seq<Block>, live: set<Block>, k: nat, u: nat, n: nat, b: Block)
    requires Tiled(f, live, n) && k < |f| && 0 < u <= f[k].size && b == Block(f[k].End() - u, u) && !LastBlock(f, u)
    ensures b !in live && live + {b} - {b} == live && !JustBelow(Carve(f, k, u), b)
    ensures Units(Carve(f, k, u)) + Span(b) == Units(f)
  {
    CarveUnits(f, k, u, n);
    BestFitAbove(f, k, u, n);
    assert b.Has(b.start);
    assert b in live ==> b.start in LiveUnits(live);
    assert b.start in Span(b);
  }

  lemma LiveHeader(pool: MemPool, b: Block)
    requires pool.Valid() && b in pool.live
    ensures b.End() <= pool.n && b.start < pool.n && pool.BlockAt(b.start + 1) == b
  {
    LiveFits(pool.free, pool.live, b, pool.n);
  }

  /** Freeing everything, in any order, restores the single initial block. */
  method FreeAll(pool: MemPool, order: seq<Block>)
    requires pool.Valid() && pool.free[0].start == 0
    requires forall b :: b in pool.live <==> b in order
    requires forall i, j :: 0 <= i < j < |order| ==> order[i] != order[j]
    modifies pool, pool.size, pool.ptr
    ensures pool.Valid() && pool.free == [Block(0, pool.n)] && pool.live == {}
  {
    hide Linked, Sorted, Disjoint, Headers, On, Units, LiveUnits, Span;
    LiveNonEmpty(pool);
    for i := 0 to |order|
      invariant pool.Valid() && |pool.free| > 0 && pool.free[0].start == 0
      invariant forall b :: b in pool.live <==> b in order[i..]
    {
      LiveHeader(pool, order[i]);
      pool.Free(order[i].start + 1);
      LiveNonEmpty(pool);
    }
    assert pool.live == {};
    LiveNonEmpty(pool);
    AllFree(pool.free, pool.n);
  }

  lemma LiveNonEmpty(pool: MemPool)
    requires pool.Valid()
    ensures |pool.free| > 0 && pool.n > 0
  {}

  /** What a client asks: bytes, or to give back one of the blocks it holds. */
  datatype Request = Alloc(nbytes: nat) | Release(which: nat)

  /** The units that the requests ask for, headers included. */
  function Wanted(requests: seq<Request>, unit: nat): nat
    requires unit > 0
  {
    if requests == [] then 0
    else
      var r := requests[|requests| - 1];
      Wanted(requests[..|requests| - 1], unit) + if r.Alloc? then NUnits(r.nbytes, unit) else 0
  }

  lemma WantedMore(requests: seq<Request>, unit: nat, i: nat)
    requires unit > 0 && i < |requests|
    ensures Wanted(requests[..i + 1], unit)
         == Wanted(requests[..i], unit) + if requests[i].Alloc? then NUnits(requests[i].nbytes, unit) else 0
    ensures Wanted(requests[..0], unit) == 0
  {
    assert requests[..i + 1][..i] == requests[..i];
  }

  lemma {:induction false} WantedMono(requests: seq<Request>, unit: nat, i: nat)
    requires unit > 0 && i <= |requests|
    ensures Wanted(requests[..i], unit) <= Wanted(requests, unit)
    decreases |requests| - i
  {
    if i < |requests| {
      WantedMore(requests, unit, i);
      WantedMono(requests, unit, i + 1);
    } else {
      assert requests[..i] == requests;
    }
  }

  lemma InBase(f: seq<Block>, x: nat)
    requires f != [] && f[0].start == 0 && x < f[0].size
    ensures x in Units(f)
  {
    assert f[0].Has(x) && x < f[0].End();
  }

  lemma PastBase(f: seq<Block>, n: nat)
    requires Sorted(f, n) && f != [] && f[0].start == 0
    ensures f[0].size !in Units(f)
  {}

  /** A base block whose units all stay free gets no shorter. */
  lemma BaseGrows(f: seq<Block>, g: seq<Block>, n: nat)
    requires Sorted(f, n) && Sorted(g, n) && f != [] && g != [] && f[0].start == 0 == g[0].start && Units(f) <= Units(g)
    ensures f[0].size <= g[0].size
  {
    hide Units, Sorted;
    PastBase(g, n);
    if g[0].size < f[0].size {
      InBase(f, g[0].size);
    }
  }

  /** Carving takes at most the units asked for from the base block. */
  lemma BaseCarved(f: seq<Block>, k: nat, u: nat)
    requires k < |f| && u <= f[k].size && !(k == 0 && f[0].size == u)
    ensures Carve(f, k, u) != [] && f[0].size <= Carve(f, k, u)[0].size + u
  {}

  lemma PoolSorted(pool: MemPool)
    requires pool.Valid()
    ensures Sorted(pool.free, pool.n)
  {}

  /**
    Any run of requests on an initialised pool, and everything freed at the end, in the order held: the
    pool is a single block again, unless a request was handed the base of the arena.  That takes requests
    for as many units as the arena has.
   */
  method Run(pool: MemPool, requests: seq<Request>) returns (tookBase: bool)
    requires pool.Valid() && pool.free == [Block(0, pool.n)] && pool.live == {}
    requires forall i :: 0 <= i < |requests| && requests[i].Alloc? ==> requests[i].nbytes < WORD
    modifies pool, pool.size, pool.ptr
    ensures !tookBase ==> pool.Valid() && pool.free == [Block(0, pool.n)] && pool.live == {}
    ensures Wanted(requests, pool.unitSize) < pool.n ==> !tookBase
  {
    hide Linked, Sorted, Disjoint, Headers, On, Units, LiveUnits, Span, Holds, NUnits, Carve, Wanted;
    var held: seq<Block> := [];
    for i := 0 to |requests|
      invariant pool.Valid() && |pool.free| > 0 && pool.free[0].start == 0 && Exactly(held, pool.live)
      invariant pool.n <= pool.free[0].size + Wanted(requests[..i], pool.unitSize)
    {
      WantedMore(requests, pool.unitSize, i);
      WantedMono(requests, pool.unitSize, i + 1);
      match requests[i]
      case Alloc(nbytes) =>
        ghost var f, was := pool.free, pool.live;
        PoolTiled(pool);
        var res, k := pool.Malloc(nbytes);
        if res == 1 {
          return true;
        }
        if res != 0 {
          BaseCarved(f, k, NUnits(nbytes, pool.unitSize));
          var b := Block(res - 1, NUnits(nbytes, pool.unitSize));
          NewLive(f, was, k, b.size, pool.n, b);
          HoldMore(held, was, b);
          held := held + [b];
        }
      case Release(which) =>
        if which < |held| {
          var b := held[which];
          LiveHeader(pool, b);
          HoldLess(held, pool.live, which);
          ghost var f := pool.free;
          PoolSorted(pool);
          pool.Free(b.start + 1);
          PoolSorted(pool);
          LiveNonEmpty(pool);
          BaseGrows(f, pool.free, pool.n);
          held := held[..which] + held[which + 1..];
        }
    }
    FreeAll(pool, held);
    tookBase := false;
  }

  /** `held` names each of the allocated blocks once. */
  ghost predicate Exactly(held: seq<Block>, live: set<Block>) {
    && (forall b :: b in live <==> b in held)
    && (forall i, j :: 0 <= i < j < |held| ==> held[i] != held[j])
  }

  lemma HoldMore(held: seq<Block>, live: set<Block>, b: Block)
    requires Exactly(held, live) && b !in live
    ensures Exactly(held + [b], live + {b})
  {}

  lemma HoldLess(held: seq<Block>, live: set<Block>, k: nat)
    requires Exactly(held, live) && k < |held|
    ensures Exactly(held[..k] + held[k + 1..], live - {held[k]})
  {
    var less := held[..k] + held[k + 1..];
    forall b | b in held && b != held[k] ensures b in less {
      var i :| 0 <= i < |held| && held[i] == b;
      assert less[if i < k then i else i - 1] == b;
    }
  }

  lemma PoolTiled(pool: MemPool)
    requires pool.Valid()
    ensures Tiled(pool.free, pool.live, pool.n) && |pool.free| > 0
  {}

  /** A request for exactly the last free block is served, and served again with the same block. */
  method ExactFitAgain(pool: MemPool, nbytes: nat) returns (first: nat, second: nat)
    requires pool.Valid() && nbytes < WORD && LastBlock(pool.free, NUnits(nbytes, pool.unitSize))
    modifies pool, pool.size, pool.ptr
    ensures first == second == old(pool.free)[0].start + 1
    ensures pool.Valid() && pool.free == old(pool.free) && pool.live == old(pool.live)
  {
    hide Linked, Tiled, Sorted, Disjoint, Headers, On, Units, Holds, NUnits;
    ghost var k;
    OneFits(pool.free[0], NUnits(nbytes, pool.unitSize));
    first, k := pool.Malloc(nbytes);
    second, k := pool.Malloc(nbytes);
  }

  /** The place of the search of free after `k` steps. */
  ghost function Walked(ptr: seq<nat>, p: nat, k: nat): nat {
    if k == 0 then p
    else
      var q := Walked(ptr, p, k - 1);
      if q < |ptr| then ptr[q] else q
  }

  /** Giving that block back is a search that never ends. */
  lemma {:induction false} FreeNeverEnds(pool: MemPool, ap: nat, k: nat)
    requires pool.Valid() && |pool.free| == 1 && ap == pool.free[0].start + 1
    ensures var p := Walked(pool.ptr[..], pool.freePtr, k); p < pool.n && !StopsAt(p, pool.ptr[p], ap - 1)
  {
    hide Tiled, Sorted, Disjoint, Headers;
    HoldsOne(pool.size[..], pool.ptr[..], pool.freePtr, pool.free, pool.live, pool.n);
    Circles(pool.ptr[..], pool.freePtr, k);
  }

  lemma {:induction false} Circles(ptr: seq<nat>, p: nat, k: nat)
    requires p < |ptr| && ptr[p] == p
    ensures Walked(ptr, p, k) == p
  {
    if k > 0 {
      Circles(ptr, p, k - 1);
    }
  }

  /** An exact fit of the only free block happens: the same block is handed out twice. */
  method HandsOutTwice() returns (pool: MemPool, first: nat, second: nat)
    ensures fresh(pool) && first == second != 0
  {
    pool := new MemPool(2, 8);
    assert NUnits(8, 8) == 2;
    first, second := ExactFitAgain(pool, 8);
  }

  /**
    A pool comes to have a block just below its only free one without its last free block ever having been
    taken: after that block is freed there is no ring of disjoint blocks.
   */
  method LosesItsRing() returns (pool: MemPool)
    ensures fresh(pool) && forall g :: pool.Ring(g) ==> !Sorted(g, pool.n)
  {
    hide Linked, Tiled, Sorted, Disjoint, Headers, On, Units, LiveUnits, Holds, Span, BestFit;
    pool := new MemPool(7, 8);
    assert NUnits(16, 8) == 3 && NUnits(8, 8) == 2;
    var res;
    ghost var k;
    OneFits(Block(0, 7), 3);
    res, k := pool.Malloc(16);
    assert res == 5 && pool.free == [Block(0, 4)] && pool.live == {Block(4, 3)};
    OneFits(Block(0, 4), 2);
    res, k := pool.Malloc(8);
    assert res == 3 && pool.free == [Block(0, 2)] && pool.live == {Block(4, 3), Block(2, 2)};
    LiveHeader(pool, Block(4, 3));
    pool.Free(5);
    TwoRuns(pool);
    assert pool.free == [Block(0, 2), Block(4, 3)];
    TwoFit();
    res, k := pool.Malloc(8);
    assert k == 0 && pool.free == [Block(4, 3)];
    LiveHeader(pool, Block(2, 2));
    pool.Free(3);
  }

  lemma OneFits(b: Block, u: nat)
    requires u <= b.size
    ensures SomeFits([b], u) && forall k :: BestFit([b], k, u) ==> k == 0
  {
    assert [b][0].size >= u;
  }

  lemma TwoFit()
    ensures SomeFits([Block(0, 2), Block(4, 3)], 2)
    ensures forall k :: BestFit([Block(0, 2), Block(4, 3)], k, 2) ==> k == 0
  {
    assert [Block(0, 2), Block(4, 3)][0].size >= 2;
  }

  /** The free units of the pool are those of its two free blocks. */
  lemma TwoRuns(pool: MemPool)
    requires pool.Valid() && pool.n == 7 && Units(pool.free) == Units([Block(0, 2)]) + Span(Block(4, 3))
    ensures pool.free == [Block(0, 2), Block(4, 3)]
  {
    var f := [Block(0, 2)] + [Block(4, 3)];
    UnitsConcat([Block(0, 2)], [Block(4, 3)]);
    UnitsOne(Block(4, 3));
    assert Sorted(f, 7);
    PoolTiled(pool);
    Canonical(pool.free, f, 7);
  }
}
