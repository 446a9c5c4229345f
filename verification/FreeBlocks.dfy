/**
  Values the memory pool is specified with: lists of free blocks in address order, the set of arena
  units they cover, and the tiling of the arena by free and allocated blocks.  Addresses are unit
  indices into the arena.
 */
module FreeBlocks {

  datatype Block = Block(start: nat, size: nat) {
    function End(): nat { start + size }
    predicate Has(u: nat) { start <= u < End() }
  }

  /** Address order with a gap after every block: no two free blocks touch. */
  ghost predicate Sorted(f: seq<Block>, n: nat) {
    && (forall i :: 0 <= i < |f| ==> f[i].size > 0 && f[i].End() <= n)
    && (forall i, j :: 0 <= i < j < |f| ==> f[i].End() < f[j].start)
  }

  ghost function Span(b: Block): set<nat> {
    set u: nat | u < b.End() && b.Has(u)
  }

  ghost function Units(f: seq<Block>): set<nat> {
    set i, u: nat | 0 <= i < |f| && u < f[i].End() && f[i].Has(u) :: u
  }

  ghost function LiveUnits(live: set<Block>): set<nat> {
    set b, u: nat | b in live && u < b.End() && b.Has(u) :: u
  }

  /** Allocated blocks are non-empty and pairwise disjoint. */
  ghost predicate Disjoint(live: set<Block>) {
    && (forall b :: b in live ==> b.size > 0)
    && (forall b, c :: b in live && c in live && b != c ==> b.End() <= c.start || c.End() <= b.start)
  }

  /** Free and allocated blocks cover every unit of the arena exactly once. */
  ghost predicate Tiled(f: seq<Block>, live: set<Block>, n: nat) {
    && Sorted(f, n)
    && Disjoint(live)
    && Units(f) !! LiveUnits(live)
    && Units(f) + LiveUnits(live) == Span(Block(0, n))
  }

  lemma UnitAt(f: seq<Block>, u: nat) returns (i: nat)
    requires u in Units(f)
    ensures i < |f| && f[i].Has(u)
  {
    i :| 0 <= i < |f| && f[i].Has(u);
  }

  lemma LiveAt(live: set<Block>, u: nat) returns (b: Block)
    requires u in LiveUnits(live)
    ensures b in live && b.Has(u)
  {
    b :| b in live && b.Has(u);
  }

  /** The first block holds the least free unit, and its end is the least unit after it that is not free. */
  lemma FirstRun(f: seq<Block>, n: nat)
    requires Sorted(f, n) && f != []
    ensures f[0].start in Units(f) && f[0].End() !in Units(f)
    ensures forall u :: u in Units(f) ==> f[0].start <= u
    ensures Span(f[0]) <= Units(f)
    ensures Sorted(f[1..], n) && Units(f[1..]) == Units(f) - Span(f[0])
  {
    assert f[0].Has(f[0].start);
    forall u | u in Units(f) - Span(f[0]) ensures u in Units(f[1..]) {
      var i := UnitAt(f, u);
      assert f[1..][i - 1] == f[i];
    }
    forall u | u in Units(f[1..]) ensures u in Units(f) - Span(f[0]) {
      var i := UnitAt(f[1..], u);
      assert f[i + 1] == f[1..][i];
    }
  }

  lemma SameFirst(f: seq<Block>, g: seq<Block>, n: nat)
    requires Sorted(f, n) && Sorted(g, n) && f != [] && g != []
    requires Units(f) == Units(g)
    ensures f[0] == g[0]
  {
    hide Sorted, Units;
    FirstRun(f, n);
    FirstRun(g, n);
    var b, c := f[0], g[0];
    assert c.Has(b.End()) ==> b.End() in Span(c);
    assert b.Has(c.End()) ==> c.End() in Span(b);
  }

  lemma NoUnits(f: seq<Block>, n: nat)
    requires Sorted(f, n)
    ensures f == [] <==> Units(f) == {}
  {
    if f != [] {
      FirstRun(f, n);
    }
  }

  /** A free set has only one list of blocks: its maximal runs in address order. */
  lemma {:induction false} Canonical(f: seq<Block>, g: seq<Block>, n: nat)
    requires Sorted(f, n) && Sorted(g, n)
    requires Units(f) == Units(g)
    ensures f == g
    decreases |f|
  {
    hide Sorted, Units;
    NoUnits(f, n);
    NoUnits(g, n);
    if f != [] && g != [] {
      FirstRun(f, n);
      FirstRun(g, n);
      SameFirst(f, g, n);
      Canonical(f[1..], g[1..], n);
      assert f == [f[0]] + f[1..] && g == [g[0]] + g[1..];
    }
  }

  lemma UnitsOne(b: Block)
    ensures Units([b]) == Span(b)
  {
    forall x | x in Span(b) ensures x in Units([b]) {
      assert [b][0].Has(x);
    }
  }

  lemma UnitsConcat(f: seq<Block>, g: seq<Block>)
    ensures Units(f + g) == Units(f) + Units(g)
  {
    var h := f + g;
    forall x | x in Units(f) + Units(g) ensures x in Units(h) {
      if x in Units(f) {
        var i := UnitAt(f, x);
        assert h[i].Has(x);
      } else {
        var i := UnitAt(g, x);
        assert h[|f| + i].Has(x);
      }
    }
    forall x | x in Units(h) ensures x in Units(f) + Units(g) {
      var i := UnitAt(h, x);
      assert if i < |f| then f[i].Has(x) else g[i - |f|].Has(x);
    }
  }

  lemma UnitsSplit(f: seq<Block>, lo: nat, hi: nat)
    requires lo <= hi <= |f|
    ensures Units(f) == Units(f[..lo]) + Units(f[lo..hi]) + Units(f[hi..])
  {
    assert f == f[..lo] + f[lo..hi] + f[hi..];
    UnitsConcat(f[..lo] + f[lo..hi], f[hi..]);
    UnitsConcat(f[..lo], f[lo..hi]);
  }

  /** Different stretches of a sorted list cover different units. */
  lemma UnitsApart(f: seq<Block>, lo: nat, hi: nat, n: nat)
    requires Sorted(f, n) && lo <= hi <= |f|
    ensures Units(f[lo..hi]) !! Units(f[..lo]) + Units(f[hi..])
  {
    forall x | x in Units(f[lo..hi]) ensures x !in Units(f[..lo]) + Units(f[hi..]) {
      var i := UnitAt(f[lo..hi], x);
      assert forall j :: 0 <= j < |f| && j != lo + i ==> !f[j].Has(x);
    }
  }

  /** Taking `u` units from the top of block `k`. */
  ghost function Carve(f: seq<Block>, k: nat, u: nat): seq<Block>
    requires k < |f| && u <= f[k].size
  {
    if f[k].size == u then f[..k] + f[k + 1..] else f[k := Block(f[k].start, f[k].size - u)]
  }

  lemma SortedAround(f: seq<Block>, k: nat, n: nat)
    requires Sorted(f, n) && k < |f|
    ensures Sorted(f[..k], n) && Sorted(f[k + 1..], n) && f[k].size > 0 && f[k].End() <= n
    ensures k > 0 ==> f[k - 1].End() < f[k].start
    ensures k + 1 < |f| ==> f[k].End() < f[k + 1].start
  {}

  lemma CarveSorted(f: seq<Block>, k: nat, u: nat, n: nat)
    requires Sorted(f, n) && k < |f| && 0 < u <= f[k].size
    ensures Sorted(Carve(f, k, u), n)
  {
    hide Sorted;
    SortedAround(f, k, n);
    var rest := Block(f[k].start, f[k].size - u);
    if rest.size == 0 {
      SortedConcat(f[..k], f[k + 1..], n);
    } else {
      SortedThree(f[..k], rest, f[k + 1..], n);
      assert f[k := rest] == f[..k] + [rest] + f[k + 1..];
    }
  }

  lemma SpanSplit(b: Block, u: nat)
    requires 0 < u <= b.size
    ensures Span(b) == Span(Block(b.start, b.size - u)) + Span(Block(b.End() - u, u))
    ensures Span(Block(b.start, b.size - u)) !! Span(Block(b.End() - u, u))
  {
    var lo, hi := Block(b.start, b.size - u), Block(b.End() - u, u);
    forall x ensures x in Span(b) <==> x in Span(lo) + Span(hi) {
      assert b.Has(x) <==> lo.Has(x) || hi.Has(x);
    }
  }

  lemma CarveUnits(f: seq<Block>, k: nat, u: nat, n: nat)
    requires Sorted(f, n) && k < |f| && 0 < u <= f[k].size
    ensures Span(Block(f[k].End() - u, u)) <= Units(f)
    ensures Units(Carve(f, k, u)) == Units(f) - Span(Block(f[k].End() - u, u))
  {
    var rest := Block(f[k].start, f[k].size - u);
    SpanSplit(f[k], u);
    UnitsSplit(f, k, k + 1);
    UnitsApart(f, k, k + 1, n);
    assert f[k..k + 1] == [f[k]];
    UnitsOne(f[k]);
    UnitsOne(rest);
    UnitsConcat(f[..k], f[k + 1..]);
    UnitsConcat(f[..k] + [rest], f[k + 1..]);
    UnitsConcat(f[..k], [rest]);
    assert f[k := rest] == f[..k] + [rest] + f[k + 1..];
  }

  /** Where the merged block begins and ends in the list when `b` is returned after the first `k` blocks. */
  ghost function Lo(f: seq<Block>, k: nat, b: Block): nat
    requires k <= |f|
  {
    if k > 0 && f[k - 1].End() == b.start then k - 1 else k
  }

  ghost function Hi(f: seq<Block>, k: nat, b: Block): nat
    requires k <= |f|
  {
    if k < |f| && b.End() == f[k].start then k + 1 else k
  }

  ghost function Merged(f: seq<Block>, k: nat, b: Block): Block
    requires k <= |f|
  {
    var lo, hi := Lo(f, k, b), Hi(f, k, b);
    Block(if lo < k then f[lo].start else b.start,
          (if lo < k then f[lo].size else 0) + b.size + (if k < hi then f[k].size else 0))
  }

  /** Returning block `b`, which lies after the first `k` blocks, merging it with touching neighbours. */
  ghost function Insert(f: seq<Block>, k: nat, b: Block): seq<Block>
    requires k <= |f|
  {
    f[..Lo(f, k, b)] + [Merged(f, k, b)] + f[Hi(f, k, b)..]
  }

  lemma SortedConcat(f: seq<Block>, g: seq<Block>, n: nat)
    requires Sorted(f, n) && Sorted(g, n)
    requires f != [] && g != [] ==> f[|f| - 1].End() < g[0].start
    ensures Sorted(f + g, n)
  {
    var h := f + g;
    forall i, j | 0 <= i < j < |h| ensures h[i].End() < h[j].start {
      if i < |f| <= j {
        assert f[i].End() <= f[|f| - 1].End();
        assert g[0].start <= g[j - |f|].start;
      }
    }
  }

  lemma SortedThree(f: seq<Block>, m: Block, g: seq<Block>, n: nat)
    requires Sorted(f, n) && Sorted(g, n) && m.size > 0 && m.End() <= n
    requires f != [] ==> f[|f| - 1].End() < m.start
    requires g != [] ==> m.End() < g[0].start
    ensures Sorted(f + [m] + g, n)
  {
    SortedConcat(f, [m], n);
    SortedConcat(f + [m], g, n);
  }

  lemma SortedSlice(f: seq<Block>, lo: nat, hi: nat, n: nat)
    requires Sorted(f, n) && lo <= hi <= |f|
    ensures Sorted(f[lo..hi], n)
    ensures lo < hi ==> f[lo..hi][hi - lo - 1] == f[hi - 1] && f[lo..hi][0] == f[lo]
  {
    assert forall i :: 0 <= i < hi - lo ==> f[lo..hi][i] == f[lo + i];
  }

  lemma MergedBetween(f: seq<Block>, k: nat, b: Block, n: nat)
    requires Sorted(f, n) && k <= |f| && b.size > 0 && b.End() <= n
    requires k > 0 ==> f[k - 1].End() <= b.start
    requires k < |f| ==> b.End() <= f[k].start
    ensures Lo(f, k, b) <= |f| && Hi(f, k, b) <= |f|
    ensures Merged(f, k, b).size > 0 && Merged(f, k, b).End() <= n
    ensures Lo(f, k, b) > 0 ==> f[Lo(f, k, b) - 1].End() < Merged(f, k, b).start
    ensures Hi(f, k, b) < |f| ==> Merged(f, k, b).End() < f[Hi(f, k, b)].start
  {}

  lemma InsertSorted(f: seq<Block>, k: nat, b: Block, n: nat)
    requires Sorted(f, n) && k <= |f| && b.size > 0 && b.End() <= n
    requires k > 0 ==> f[k - 1].End() <= b.start
    requires k < |f| ==> b.End() <= f[k].start
    ensures Sorted(Insert(f, k, b), n)
  {
    hide Sorted, Merged, Lo, Hi;
    var lo, hi, m := Lo(f, k, b), Hi(f, k, b), Merged(f, k, b);
    MergedBetween(f, k, b, n);
    SortedSlice(f, 0, lo, n);
    SortedSlice(f, hi, |f|, n);
    SortedThree(f[0..lo], m, f[hi..|f|], n);
    assert f[..lo] == f[0..lo] && f[hi..] == f[hi..|f|];
  }

  /** The merged block covers the returned block and the neighbours it touches. */
  lemma MergedSpan(mid: seq<Block>, b: Block, m: Block)
    requires |mid| <= 2
    requires forall i :: 0 <= i < |mid| ==> mid[i].size > 0
    requires |mid| == 0 ==> m == b
    requires |mid| == 1 && mid[0].End() == b.start ==> m == Block(mid[0].start, mid[0].size + b.size)
    requires |mid| == 1 && mid[0].End() != b.start ==> b.End() == mid[0].start && m == Block(b.start, b.size + mid[0].size)
    requires |mid| == 2 ==> mid[0].End() == b.start && b.End() == mid[1].start
    requires |mid| == 2 ==> m == Block(mid[0].start, mid[0].size + b.size + mid[1].size)
    ensures Span(m) == Span(b) + Units(mid)
  {
    forall x | x in Span(m) ensures x in Span(b) + Units(mid) {
      assert b.Has(x) || (|mid| > 0 && mid[0].Has(x)) || (|mid| > 1 && mid[1].Has(x));
    }
    forall x | x in Units(mid) ensures x in Span(m) {
      var i := UnitAt(mid, x);
      assert m.Has(x);
    }
    forall x | x in Span(b) ensures x in Span(m) {
      assert m.Has(x);
    }
  }

  lemma InsertUnits(f: seq<Block>, k: nat, b: Block, n: nat)
    requires Sorted(f, n) && k <= |f|
    ensures Units(Insert(f, k, b)) == Units(f) + Span(b)
  {
    var lo, hi, m := Lo(f, k, b), Hi(f, k, b), Merged(f, k, b);
    MergedSpan(f[lo..hi], b, m);
    UnitsSplit(f, lo, hi);
    UnitsConcat(f[..lo] + [m], f[hi..]);
    UnitsConcat(f[..lo], [m]);
    UnitsOne(m);
  }

  lemma LiveAdd(live: set<Block>, b: Block)
    ensures LiveUnits(live + {b}) == LiveUnits(live) + Span(b)
  {
    forall x | x in LiveUnits(live) + Span(b) ensures x in LiveUnits(live + {b}) {
      if x in LiveUnits(live) {
        var c := LiveAt(live, x);
        assert c in live + {b} && c.Has(x);
      } else {
        assert b in live + {b} && b.Has(x);
      }
    }
  }

  lemma LiveRemove(live: set<Block>, b: Block)
    requires b in live && Disjoint(live)
    ensures Disjoint(live - {b})
    ensures LiveUnits(live) == LiveUnits(live - {b}) + Span(b)
    ensures LiveUnits(live - {b}) !! Span(b)
  {
    assert live == live - {b} + {b};
    LiveAdd(live - {b}, b);
    forall x | x in LiveUnits(live - {b}) ensures x !in Span(b) {
      var c := LiveAt(live - {b}, x);
    }
  }

  /** Carving keeps the tiling: the units move from the free set to the new allocated block. */
  lemma CarveTiled(f: seq<Block>, live: set<Block>, k: nat, u: nat, n: nat)
    requires Tiled(f, live, n) && k < |f| && 0 < u <= f[k].size
    ensures Tiled(Carve(f, k, u), live + {Block(f[k].End() - u, u)}, n)
  {
    var b := Block(f[k].End() - u, u);
    CarveSorted(f, k, u, n);
    CarveUnits(f, k, u, n);
    LiveAdd(live, b);
    forall c | c in live ensures c.End() <= b.start || b.End() <= c.start {
      assert c.Has(c.start) && b.Has(b.start);
      assert c.Has(b.start) ==> b.start in LiveUnits(live);
      assert b.start in Span(b);
      assert b.Has(c.start) ==> c.start in Span(b);
      assert c.start in LiveUnits(live);
    }
  }

  /** An allocated block lies within the arena and beside every free block. */
  lemma LiveFits(f: seq<Block>, live: set<Block>, b: Block, n: nat)
    requires Tiled(f, live, n) && b in live
    ensures b.End() <= n
    ensures forall i :: 0 <= i < |f| ==> f[i].End() <= b.start || b.End() <= f[i].start
  {
    assert b.Has(b.End() - 1) && b.Has(b.start);
    assert b.End() - 1 in LiveUnits(live) && b.start in LiveUnits(live);
    assert b.End() - 1 in Span(Block(0, n));
    forall i | 0 <= i < |f| ensures f[i].End() <= b.start || b.End() <= f[i].start {
      var c := f[i];
      assert c.Has(c.start);
      assert c.start in Units(f);
      assert c.Has(b.start) ==> b.start in Units(f);
      assert b.Has(c.start) ==> c.start in LiveUnits(live);
    }
  }

  /** Returning an allocated block keeps the tiling. */
  lemma InsertTiled(f: seq<Block>, live: set<Block>, k: nat, b: Block, n: nat)
    requires Tiled(f, live, n) && b in live && k <= |f|
    requires forall i :: 0 <= i < |f| ==> (i < k <==> f[i].start < b.start)
    ensures Tiled(Insert(f, k, b), live - {b}, n)
    ensures Units(Insert(f, k, b)) == Units(f) + Span(b)
  {
    LiveFits(f, live, b, n);
    InsertSorted(f, k, b, n);
    InsertUnits(f, k, b, n);
    LiveRemove(live, b);
  }

  /** With nothing allocated the arena is one free block. */
  lemma AllFree(f: seq<Block>, n: nat)
    requires Tiled(f, {}, n) && n > 0
    ensures f == [Block(0, n)]
  {
    var g := [Block(0, n)];
    forall x | x in Span(Block(0, n)) ensures x in Units(g) {
      assert g[0].Has(x);
    }
    Canonical(f, g, n);
  }

  function Total(f: seq<Block>): nat {
    if f == [] then 0 else f[0].size + Total(f[1..])
  }

  lemma {:induction false} TotalConcat(f: seq<Block>, g: seq<Block>)
    ensures Total(f + g) == Total(f) + Total(g)
  {
    if f == [] {
      assert f + g == g;
    } else {
      assert (f + g)[1..] == f[1..] + g;
      TotalConcat(f[1..], g);
    }
  }

  lemma {:induction false} SpanSize(b: Block)
    ensures |Span(b)| == b.size
    decreases b.size
  {
    if b.size == 0 {
      assert Span(b) == {};
    } else {
      var c := Block(b.start, b.size - 1);
      SpanSize(c);
      forall x ensures x in Span(b) <==> x in Span(c) + {b.End() - 1} {
        assert b.Has(x) <==> c.Has(x) || x == b.End() - 1;
      }
      assert Span(b) == Span(c) + {b.End() - 1};
    }
  }

  /** The block sizes add up to the number of free units. */
  lemma {:induction false} TotalIsUnits(f: seq<Block>, n: nat)
    requires Sorted(f, n)
    ensures Total(f) == |Units(f)|
  {
    if f != [] {
      FirstRun(f, n);
      TotalIsUnits(f[1..], n);
      SpanSize(f[0]);
      assert Units(f) == Units(f[1..]) + Span(f[0]);
    }
  }

  /** The total size of the blocks on the way round from index `j` to index `at`. */
  ghost function Turn(f: seq<Block>, j: nat, at: nat): nat
    requires j < |f| && at < |f|
  {
    if at >= j then Total(f[j..at + 1]) else Total(f[j..]) + Total(f[..at + 1])
  }

  lemma TotalOne(f: seq<Block>, i: nat, at: nat)
    requires i <= at < |f|
    ensures Total(f[i..at + 1]) == Total(f[i..at]) + f[at].size
  {
    assert f[i..at + 1] == f[i..at] + [f[at]];
    TotalConcat(f[i..at], [f[at]]);
    assert Total([f[at]]) == f[at].size + Total([]);
  }

  /** One more block on the way round. */
  lemma TurnStep(f: seq<Block>, j: nat, at: nat, next: nat)
    requires j < |f| && at < |f| && next < |f| && next != j
    requires next == if at + 1 == |f| then 0 else at + 1
    ensures Turn(f, j, next) == Turn(f, j, at) + f[next].size
  {
    if next > j {
      TotalOne(f, j, next);
    } else {
      TotalOne(f, 0, next);
      assert f[0..next] == f[..next] && f[0..next + 1] == f[..next + 1];
      if next == 0 {
        assert f[j..at + 1] == f[j..];
      }
    }
  }

  /** The whole way round. */
  lemma TurnAll(f: seq<Block>, j: nat, at: nat)
    requires j < |f| && at < |f|
    requires j == if at + 1 == |f| then 0 else at + 1
    ensures Turn(f, j, at) == Total(f)
  {
    if j == 0 {
      assert f[0..at + 1] == f;
    } else {
      assert f == f[..at + 1] + f[j..];
      TotalConcat(f[..at + 1], f[j..]);
    }
  }

  lemma TurnOne(f: seq<Block>, j: nat)
    requires j < |f|
    ensures Turn(f, j, j) == f[j].size
  {
    TotalOne(f, j, j);
    assert f[j..j] == [];
  }
}
