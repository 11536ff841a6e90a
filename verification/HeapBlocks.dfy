/** The kernel heap seen as a list of blocks, without memory.

    A block is a header of HEADER bytes at `addr` followed by `size` payload
    bytes. The functions below say what each heap operation does to the list;
    the class in Heap.dfy performs them on memory. */
module HeapBlocks {
  const HEADER: nat := 16
  const MIN_BLOCK_SIZE: nat := 4

  datatype Block = Block(addr: nat, size: nat, used: bool) {
    function End(): nat { addr + HEADER + size }
    function Data(): nat { addr + HEADER }
  }

  // ---------- Shape ----------

  /** The blocks cover the region [start, end) exactly, in address order. */
  ghost predicate Tiles(bs: seq<Block>, start: nat, end: nat) {
    && |bs| > 0
    && bs[0].addr == start
    && bs[|bs| - 1].End() == end
    && forall i :: 0 <= i < |bs| - 1 ==> bs[i].End() == bs[i + 1].addr
  }

  /** No two neighbours are both free. */
  ghost predicate Coalesced(bs: seq<Block>) {
    forall i :: 0 <= i < |bs| - 1 ==> bs[i].used || bs[i + 1].used
  }

  ghost predicate HeapShape(bs: seq<Block>, start: nat, end: nat) {
    Tiles(bs, start, end) && Coalesced(bs)
  }

  ghost function Live(bs: seq<Block>): set<Block> {
    set b | b in bs && b.used
  }

  function Sizes(bs: seq<Block>): nat {
    if bs == [] then 0 else bs[0].size + HEADER + Sizes(bs[1..])
  }

  /** Blocks are ordered and do not overlap. */
  lemma {:induction false} Ordered(bs: seq<Block>, start: nat, end: nat, i: nat, j: nat)
    requires Tiles(bs, start, end) && i < j < |bs|
    ensures bs[i].End() <= bs[j].addr
    decreases j
  {
    if i + 1 < j {
      Ordered(bs, start, end, i, j - 1);
    }
  }

  lemma {:induction false} Bounds(bs: seq<Block>, start: nat, end: nat)
    requires Tiles(bs, start, end)
    ensures forall i :: 0 <= i < |bs| ==> start <= bs[i].addr && bs[i].End() <= end
    ensures forall i, j :: 0 <= i < j < |bs| ==> bs[i].End() <= bs[j].addr
  {
    forall i, j | 0 <= i < j < |bs| ensures bs[i].End() <= bs[j].addr {
      Ordered(bs, start, end, i, j);
    }
    forall i | 0 <= i < |bs| ensures start <= bs[i].addr && bs[i].End() <= end {
      if i > 0 { Ordered(bs, start, end, 0, i); }
      if i < |bs| - 1 { Ordered(bs, start, end, i, |bs| - 1); }
    }
  }

  /** Two different blocks have disjoint payloads. */
  lemma PayloadsDisjoint(bs: seq<Block>, start: nat, end: nat, b: Block, c: Block)
    requires Tiles(bs, start, end) && b in bs && c in bs && b != c
    ensures b.End() <= c.addr || c.End() <= b.addr
  {
    Bounds(bs, start, end);
  }

  /** Header and payload bytes add up to the region. */
  lemma {:induction false} TotalConserved(bs: seq<Block>, start: nat, end: nat)
    requires Tiles(bs, start, end)
    ensures Sizes(bs) == end - start
    decreases |bs|
  {
    if |bs| > 1 {
      TotalConserved(bs[1..], bs[1].addr, end);
    }
  }

  // ---------- Operations on the list ----------

  function Initial(start: nat, end: nat): seq<Block>
    requires start + HEADER <= end
  {
    [Block(start, end - start - HEADER, false)]
  }

  function SetUsed(bs: seq<Block>, k: nat, used: bool): seq<Block>
    requires k < |bs|
  {
    bs[k := bs[k].(used := used)]
  }

  /** Block k absorbs its successor. */
  function Merge(bs: seq<Block>, k: nat): seq<Block>
    requires k + 1 < |bs|
  {
    bs[..k] + [bs[k].(size := bs[k].size + HEADER + bs[k + 1].size)] + bs[k + 2..]
  }

  /** Block k keeps n bytes and becomes used; the rest becomes a free block. */
  function Split(bs: seq<Block>, k: nat, n: nat): seq<Block>
    requires k < |bs| && n + HEADER <= bs[k].size
  {
    bs[..k]
    + [Block(bs[k].addr, n, true), Block(bs[k].addr + HEADER + n, bs[k].size - n - HEADER, false)]
    + bs[k + 1..]
  }

  predicate WorthSplitting(size: nat, n: nat) {
    n <= size && size - n > HEADER + MIN_BLOCK_SIZE
  }

  /** Hand out n bytes of block k. */
  function Take(bs: seq<Block>, k: nat, n: nat): seq<Block>
    requires k < |bs| && n <= bs[k].size
  {
    if WorthSplitting(bs[k].size, n) then Split(bs, k, n) else SetUsed(bs, k, true)
  }

  /** k is the first free block of minimal sufficient size. */
  ghost predicate IsBestFit(bs: seq<Block>, n: nat, k: nat) {
    && k < |bs| && !bs[k].used && n <= bs[k].size
    && (forall j :: 0 <= j < |bs| && !bs[j].used && n <= bs[j].size ==> bs[k].size <= bs[j].size)
    && (forall j :: 0 <= j < k && !bs[j].used && n <= bs[j].size ==> bs[k].size < bs[j].size)
  }

  ghost predicate Fits(bs: seq<Block>, n: nat) {
    exists k :: 0 <= k < |bs| && !bs[k].used && n <= bs[k].size
  }

  function MergeForward(bs: seq<Block>, k: nat): (r: seq<Block>)
    requires k < |bs|
    ensures k < |r|
    decreases |bs|
  {
    if k + 1 < |bs| && !bs[k + 1].used then MergeForward(Merge(bs, k), k) else bs
  }

  function MergeBackward(bs: seq<Block>, k: nat): seq<Block>
    requires k < |bs|
    decreases k
  {
    if k > 0 && !bs[k - 1].used then MergeBackward(Merge(bs, k - 1), k - 1) else bs
  }

  /** The list after `free` is given block k; a block that is free already stays as it is. */
  function Release(bs: seq<Block>, k: nat): seq<Block>
    requires k < |bs|
  {
    if bs[k].used then MergeBackward(MergeForward(SetUsed(bs, k, false), k), k) else bs
  }

  /** The in-place branch of `krealloc`: absorb the successor, give back what is too much. */
  function Grow(bs: seq<Block>, k: nat, n: nat): seq<Block>
    requires k + 1 < |bs| && n <= bs[k].size + HEADER + bs[k + 1].size
  {
    var merged := Merge(bs, k);
    if WorthSplitting(merged[k].size, n) then Split(merged, k, n) else merged
  }

  predicate CanGrow(bs: seq<Block>, k: nat, n: nat)
    requires k < |bs|
  {
    k + 1 < |bs| && !bs[k + 1].used && n <= bs[k + 1].size + bs[k].size + HEADER
  }

  // ---------- The steps of the heap as relations ----------

  ghost predicate AllocStep(bs: seq<Block>, n: nat, bs': seq<Block>, p: nat) {
    exists k: nat :: IsBestFit(bs, n, k) && bs' == Take(bs, k, n) && p == bs[k].Data()
  }

  ghost predicate FreeStep(bs: seq<Block>, p: nat, bs': seq<Block>) {
    exists k: nat :: k < |bs| && bs[k].Data() == p && bs' == Release(bs, k)
  }

  ghost predicate MoveStep(bs: seq<Block>, p: nat, n: nat, bs': seq<Block>, q: nat) {
    exists middle :: AllocStep(bs, n, middle, q) && FreeStep(middle, p, bs')
  }

  ghost predicate ReallocAt(bs: seq<Block>, k: nat, n: nat, bs': seq<Block>, q: nat)
    requires k < |bs|
  {
    if n <= bs[k].size then bs' == bs && q == bs[k].Data()
    else if CanGrow(bs, k, n) then bs' == Grow(bs, k, n) && q == bs[k].Data()
    else MoveStep(bs, bs[k].Data(), n, bs', q)
  }

  /** `krealloc` of block k can only fail by having to move without room to move to. */
  ghost predicate ReallocHalts(bs: seq<Block>, k: nat, n: nat)
    requires k < |bs|
  {
    bs[k].size < n && !CanGrow(bs, k, n) && !Fits(bs, n)
  }

  ghost predicate ReallocStep(bs: seq<Block>, p: nat, n: nat, bs': seq<Block>, q: nat) {
    exists k: nat :: k < |bs| && bs[k].used && bs[k].Data() == p && ReallocAt(bs, k, n, bs', q)
  }
}
