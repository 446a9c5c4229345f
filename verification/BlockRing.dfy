/**
  The circular list through the block headers, on values: `size` and `ptr` are the header words of
  every arena unit, and each step of the pool's pointer surgery is a lemma about them.
 */
module BlockRing {
  import opened FreeBlocks

  /** The index after `i` on a ring of `k` blocks. */
  function Next(i: nat, k: nat): nat
    requires i < k
  {
    if i + 1 == k then 0 else i + 1
  }

  /** Steps from index `j` round to index `i`, a full turn back to `j` itself. */
  function Steps(j: nat, i: nat, k: nat): nat
    requires j < k && i < k
  {
    if i > j then i - j else i + k - j
  }

  /** Steps from index `j` on to index `i`, none to `j` itself. */
  function Ahead(j: nat, i: nat, k: nat): nat
    requires j < k && i < k
  {
    if i >= j then i - j else i + k - j
  }

  /** Following `ptr` from any block of `f` goes round `f` in order. */
  ghost predicate Linked(size: seq<nat>, ptr: seq<nat>, f: seq<Block>) {
    && |size| == |ptr|
    && (forall i :: 0 <= i < |f| ==> f[i].start < |size| && size[f[i].start] == f[i].size)
    && (forall i :: 0 <= i < |f| ==> ptr[f[i].start] == f[Next(i, |f|)].start)
  }

  ghost predicate On(f: seq<Block>, p: nat) {
    exists i :: 0 <= i < |f| && f[i].start == p
  }

  /** Index `m` is the only block whose header is `f[m].start`. */
  ghost predicate Only(f: seq<Block>, m: nat) {
    m < |f| && forall i :: 0 <= i < |f| && f[i].start == f[m].start ==> i == m
  }

  /** Skipping block `k`. */
  lemma LinkedUnlink(size: seq<nat>, ptr: seq<nat>, f: seq<Block>, k: nat, m: nat)
    requires Linked(size, ptr, f) && |f| > 1
    requires Only(f, m) && k == Next(m, |f|)
    ensures Linked(size, ptr[f[m].start := ptr[f[k].start]], f[..k] + f[k + 1..])
    ensures On(f[..k] + f[k + 1..], f[m].start)
  {
    var g := f[..k] + f[k + 1..];
    assert forall i :: 0 <= i < |g| ==> g[i] == f[if i < k then i else i + 1];
    var ptr' := ptr[f[m].start := ptr[f[k].start]];
    forall i | 0 <= i < |g| ensures ptr'[g[i].start] == g[Next(i, |g|)].start {
      var o := if i < k then i else i + 1;
      assert g[i] == f[o] && (o == m <==> f[o].start == f[m].start);
      assert ptr[f[o].start] == f[Next(o, |f|)].start;
      assert ptr[f[k].start] == f[Next(k, |f|)].start;
    }
    assert g[if m < k then m else m - 1] == f[m];
  }

  /** Changing the size of block `k` and writing a header `b` off the ring. */
  lemma LinkedResize(size: seq<nat>, ptr: seq<nat>, f: seq<Block>, k: nat, s: nat, b: nat, u: nat)
    requires Linked(size, ptr, f) && Only(f, k) && b < |size| && !On(f, b)
    ensures Linked(size[f[k].start := s][b := u], ptr, f[k := Block(f[k].start, s)])
  {
    var g := f[k := Block(f[k].start, s)];
    assert forall i :: 0 <= i < |g| ==> g[i].start == f[i].start;
  }

  lemma OnResize(f: seq<Block>, k: nat, s: nat, p: nat)
    requires k < |f| && On(f, p)
    ensures On(f[k := Block(f[k].start, s)], p)
  {
    var i: nat :| i < |f| && f[i].start == p;
    assert f[k := Block(f[k].start, s)][i].start == p;
  }

  /** The ring position before a block that comes after the first `k` blocks. */
  function Before(k: nat, len: nat): nat
    requires k <= len && len > 0
  {
    if k == 0 then len - 1 else k - 1
  }

  /** A header `b` off the ring goes between two neighbours. */
  lemma LinkedInsert(size: seq<nat>, ptr: seq<nat>, f: seq<Block>, k: nat, b: Block)
    requires Linked(size, ptr, f) && 0 < |f| && k <= |f| && Only(f, Before(k, |f|))
    requires b.start < |size| && size[b.start] == b.size && !On(f, b.start)
    ensures Linked(size, ptr[b.start := ptr[f[Before(k, |f|)].start]][f[Before(k, |f|)].start := b.start],
                   f[..k] + [b] + f[k..])
    ensures On(f[..k] + [b] + f[k..], f[Before(k, |f|)].start)
  {
    var m, g := Before(k, |f|), f[..k] + [b] + f[k..];
    assert forall i :: 0 <= i < |g| && i != k ==> g[i] == f[if i < k then i else i - 1];
    assert g[if k == 0 then |f| else m] == f[m];
  }

  /** A header `b` off the ring replaces block `k` and takes over its size and link. */
  lemma LinkedReplace(size: seq<nat>, ptr: seq<nat>, f: seq<Block>, k: nat, b: Block)
    requires Linked(size, ptr, f) && 1 < |f| && k < |f| && Only(f, Before(k, |f|))
    requires b.start < |size| && !On(f, b.start)
    ensures Linked(size[b.start := b.size], ptr[b.start := ptr[f[k].start]][f[Before(k, |f|)].start := b.start], f[k := b])
    ensures On(f[k := b], f[Before(k, |f|)].start)
  {
    var m, g := Before(k, |f|), f[k := b];
    assert g[m] == f[m];
  }

  /** Block `k` is absorbed by the block before it. */
  lemma LinkedAbsorb(size: seq<nat>, ptr: seq<nat>, f: seq<Block>, k: nat)
    requires Linked(size, ptr, f) && 0 < k < |f| && Only(f, k - 1)
    ensures var s := f[k - 1].size + f[k].size;
            var g := f[..k - 1] + [Block(f[k - 1].start, s)] + f[k + 1..];
            Linked(size[f[k - 1].start := s], ptr[f[k - 1].start := ptr[f[k].start]], g) && On(g, f[k - 1].start)
  {
    hide Only;
    var g := f[..k - 1] + [Block(f[k - 1].start, f[k - 1].size + f[k].size)] + f[k + 1..];
    forall i | 0 <= i < |g|
      ensures g[i].start < |size| && size[f[k - 1].start := f[k - 1].size + f[k].size][g[i].start] == g[i].size
      ensures ptr[f[k - 1].start := ptr[f[k].start]][g[i].start] == g[Next(i, |g|)].start
    {
      AbsorbedAt(size, ptr, f, k, i);
    }
    assert g[k - 1].start == f[k - 1].start;
  }

  lemma AbsorbedAt(size: seq<nat>, ptr: seq<nat>, f: seq<Block>, k: nat, i: nat)
    requires Linked(size, ptr, f) && 0 < k < |f| && Only(f, k - 1) && i < |f| - 1
    ensures var s := f[k - 1].size + f[k].size;
            var g := f[..k - 1] + [Block(f[k - 1].start, s)] + f[k + 1..];
            && |g| == |f| - 1 && |size| == |ptr| && f[k - 1].start < |size| && f[k].start < |size|
            && g[i].start < |size| && size[f[k - 1].start := s][g[i].start] == g[i].size
            && ptr[f[k - 1].start := ptr[f[k].start]][g[i].start] == g[Next(i, |g|)].start
  {
    var g := f[..k - 1] + [Block(f[k - 1].start, f[k - 1].size + f[k].size)] + f[k + 1..];
    var o := if i < k then i else i + 1;
    var next := if Next(i, |g|) < k then Next(i, |g|) else Next(i, |g|) + 1;
    assert g[i].start == f[o].start && (i != k - 1 ==> g[i] == f[o]);
    assert g[Next(i, |g|)].start == f[next].start;
    assert ptr[f[o].start] == f[Next(o, |f|)].start && ptr[f[k].start] == f[Next(k, |f|)].start;
  }

  /** The two header words of free's first step: `b` takes over the block above it, or only its link. */
  ghost function UpSize(size: seq<nat>, ptr: seq<nat>, p: nat, b: Block): seq<nat>
    requires p < |ptr| && b.start < |size| && ptr[p] < |size|
  {
    if b.End() == ptr[p] then size[b.start := b.size + size[ptr[p]]] else size
  }

  ghost function UpPtr(ptr: seq<nat>, p: nat, b: Block): seq<nat>
    requires p < |ptr| && b.start < |ptr| && ptr[p] < |ptr|
  {
    ptr[b.start := if b.End() == ptr[p] then ptr[ptr[p]] else ptr[p]]
  }

  /** The list after the first step; below-neighbours are not merged yet. */
  ghost function UpList(f: seq<Block>, k: nat, b: Block): seq<Block>
    requires k <= |f|
  {
    if k < Hi(f, k, b) then f[k := Block(b.start, b.size + f[k].size)] else f[..k] + [b] + f[k..]
  }

  /** Block `b` comes after the first `k` blocks of `f` and touches none of them from inside. */
  ghost predicate Fits(f: seq<Block>, k: nat, b: Block) {
    && 0 < |f| && k <= |f| && b.size > 0
    && (forall i :: 0 <= i < k ==> f[i].size > 0 && f[i].End() <= b.start)
    && (forall i :: k <= i < |f| ==> f[i].size > 0 && b.End() <= f[i].start)
  }

  /** What free's first step finds at the block before `b`. */
  lemma UpNext(size: seq<nat>, ptr: seq<nat>, f: seq<Block>, k: nat, b: Block)
    requires Linked(size, ptr, f) && Fits(f, k, b) && b.start < |size| && (|f| == 1 ==> f[0].start != b.End())
    ensures Before(k, |f|) < |f| && !On(f, b.start) && |size| == |ptr|
    ensures var p := f[Before(k, |f|)].start;
            && p < |ptr| && ptr[p] < |ptr| && p != b.start
            && (b.End() == ptr[p] <==> k < Hi(f, k, b))
            && (k < Hi(f, k, b) ==> 1 < |f| && ptr[p] == f[k].start && size[f[k].start] == f[k].size)
  {
    var m := Before(k, |f|);
    assert ptr[f[m].start] == f[Next(m, |f|)].start;
  }

  lemma UpLinked(size: seq<nat>, ptr: seq<nat>, f: seq<Block>, k: nat, b: Block)
    requires Linked(size, ptr, f) && Fits(f, k, b) && Only(f, Before(k, |f|))
    requires b.start < |size| && size[b.start] == b.size
    requires |f| == 1 ==> f[0].start != b.End()
    ensures var p := f[Before(k, |f|)].start;
            Linked(UpSize(size, ptr, p, b), UpPtr(ptr, p, b)[p := b.start], UpList(f, k, b)) && On(UpList(f, k, b), p)
  {
    var m := Before(k, |f|);
    var p := f[m].start;
    hide Linked, On;
    UpNext(size, ptr, f, k, b);
    if k < Hi(f, k, b) {
      LinkedReplace(size, ptr, f, k, Block(b.start, b.size + f[k].size));
    } else {
      LinkedInsert(size, ptr, f, k, b);
    }
  }

  /** The second step, with a block just below: it takes over `b`. */
  lemma DownMerge(size: seq<nat>, ptr: seq<nat>, f: seq<Block>, k: nat, b: Block)
    requires Fits(f, k, b) && Lo(f, k, b) < k && Only(UpList(f, k, b), k - 1)
    requires f[k - 1].start < |size| == |ptr| && b.start < |ptr|
    requires Linked(size, ptr[f[k - 1].start := b.start], UpList(f, k, b))
    ensures var p := f[k - 1].start;
            && p + size[p] == b.start
            && Linked(size[p := size[p] + size[b.start]], ptr[p := ptr[b.start]], Insert(f, k, b))
            && On(Insert(f, k, b), p)
  {
    hide Linked, On, Only, Fits, UpList, Insert, Lo;
    MergeList(f, k, b);
    var p, g := f[k - 1].start, UpList(f, k, b);
    MergeNext(size, ptr[p := b.start], f, k, b);
    LinkedAbsorb(size, ptr[p := b.start], g, k);
    assert ptr[p := b.start][p := ptr[b.start]] == ptr[p := ptr[b.start]];
  }

  /** The block just below `b` and `b` itself, where the first step has left them. */
  lemma MergeNext(size: seq<nat>, ptr: seq<nat>, f: seq<Block>, k: nat, b: Block)
    requires Fits(f, k, b) && Lo(f, k, b) < k && Linked(size, ptr, UpList(f, k, b))
    ensures var g := UpList(f, k, b);
            && k < |g| && g[k - 1] == f[k - 1] && g[k].start == b.start
            && f[k - 1].start < |size| == |ptr| && b.start < |size|
            && size[f[k - 1].start] == g[k - 1].size && size[b.start] == g[k].size && f[k - 1].End() == b.start
            && b.start != f[k - 1].start
  {
    var g := UpList(f, k, b);
    assert g[k - 1] == f[k - 1] && g[k].start == b.start;
  }

  lemma MergeList(f: seq<Block>, k: nat, b: Block)
    requires Fits(f, k, b) && Lo(f, k, b) < k
    ensures var g := UpList(f, k, b);
            0 < k <= |f| && k < |g| && Insert(f, k, b) == g[..k - 1] + [Block(f[k - 1].start, g[k - 1].size + g[k].size)] + g[k + 1..]
  {
    var g := UpList(f, k, b);
    assert g[k - 1] == f[k - 1];
  }

  /** The second step, with no block just below. */
  lemma DownLink(size: seq<nat>, ptr: seq<nat>, f: seq<Block>, k: nat, b: Block)
    requires Fits(f, k, b) && Lo(f, k, b) == k
    requires var p := f[Before(k, |f|)].start; p < |size| == |ptr|
    requires var p := f[Before(k, |f|)].start; Linked(size, ptr[p := b.start], UpList(f, k, b))
    requires |f| == 1 ==> f[0].start != b.End()
    ensures var p := f[Before(k, |f|)].start; p + size[p] != b.start && UpList(f, k, b) == Insert(f, k, b)
  {
    var m, g := Before(k, |f|), UpList(f, k, b);
    if k > 0 {
      assert g[m] == f[m];
    }
  }

  /** Freeing a block that begins where the only free block would have to end: no list of free blocks is left. */
  lemma DownBroken(size: seq<nat>, ptr: seq<nat>, p: nat, b: Block, s: nat, g: seq<Block>, n: nat)
    requires Linked(size, ptr, g) && On(g, p)
    requires b.End() == p && b.start < p < |ptr| && ptr[p] == b.start
    requires size[b.start] == b.size + s && s > 0
    ensures !Sorted(g, n)
  {
    var i: nat :| i < |g| && g[i].start == p;
    var c := g[Next(i, |g|)];
    assert c.start == b.start && c.size == b.size + s;
  }
}
