/** The kernel heap over byte memory (kernel/kmalloc.cpp). */
module KernelHeap {
  import opened Wrappers
  import opened Memory
  import opened HeapBlocks
  import opened HeapTheorems
  import opened HeapMemory
  import opened HeapHeaders

  lemma KeepsLiveStep(m: seq<Byte>, m': seq<Byte>, m'': seq<Byte>, bs: seq<Block>, live: set<Block>, start: nat,
                      end: nat)
    requires KeepsLive(m, m', live, start, end) && SamePayloads(m', m'', bs) && SameOutside(m', m'', start, end)
    requires forall b :: b in live ==> b in bs
    ensures KeepsLive(m, m'', live, start, end)
  {
  }

  ghost predicate SameBytes(m: seq<Byte>, m': seq<Byte>, from: nat, to: nat) {
    |m'| == |m| && forall x :: 0 <= x < |m| && from <= x < to ==> m'[x] == m[x]
  }

  class Heap {
    const mem: array<Byte>   // the address space; the heap is part of it
    const firstBlock: nat    // heap->first_block
    const size: nat          // heap->size
    ghost var blocks: seq<Block>

    ghost function EndOfHeap(): nat { firstBlock + size }

    /** The region is a doubly linked list of headers that tiles it. */
    ghost predicate Linked()
      reads this, mem
    {
      && 0 < firstBlock && EndOfHeap() <= mem.Length <= WORD
      && Tiles(blocks, firstBlock, EndOfHeap())
      && Layout(mem[..], blocks)
    }

    ghost predicate Valid()
      reads this, mem
    {
      Linked() && Coalesced(blocks)
    }

    /** p points at the payload of a block, live or free. */
    ghost predicate IsBlock(p: nat)
      reads this
    {
      exists k :: 0 <= k < |blocks| && blocks[k].Data() == p
    }

    /** `create_heap` (kernel/kmalloc.cpp:48-58). */
    constructor (mem: array<Byte>, size: nat, start: nat)
      requires 0 < start && HEADER <= size && start + size <= mem.Length <= WORD
      modifies mem
      ensures this.mem == mem && firstBlock == start && this.size == size
      ensures Valid() && blocks == Initial(start, start + size) == [Block(start, size - 16, false)]
      ensures SameOutside(old(mem[..]), mem[..], start, start + size)
    {
      this.mem, this.firstBlock, this.size := mem, start, size;
      blocks := Initial(start, start + size);
      new;
      ghost var m := mem[..];
      WriteFirstHeader(mem, start, size);
      InitialLayout(m, mem[..], start, size);
    }

    /** `merge_blocks` on two neighbours of the list. */
    method Absorb(first: nat, second: nat, ghost k: nat)
      requires Linked() && k + 1 < |blocks| && first == blocks[k].addr && second == blocks[k + 1].addr
      modifies this`blocks, mem
      ensures Linked() && blocks == Merge(old(blocks), k)
      ensures SamePayloads(old(mem[..]), mem[..], old(blocks))
      ensures SameOutside(old(mem[..]), mem[..], firstBlock, EndOfHeap())
      ensures SameBytes(old(mem[..]), mem[..], second, old(blocks)[k + 1].End())
    {
      hide HeaderAt, Payload;
      ghost var m := mem[..];
      Bounds(blocks, firstBlock, EndOfHeap());
      assert HeaderAt(m, first) == Expected(blocks, k);
      assert HeaderAt(m, second) == Expected(blocks, k + 1);
      MergeBlocks(mem, first, second);
      MergeLifts(m, mem[..], blocks, k, firstBlock, EndOfHeap());
      MergeTiles(blocks, k, firstBlock, EndOfHeap());
      blocks := Merge(blocks, k);
    }

    /** `*(struct block_header *)a` */
    function Read(a: nat): Header
      requires a + HEADER <= mem.Length
      reads mem
    {
      HeaderAt(mem[..], a)
    }

    /** The pointer a stands at block i, or is null past the last block. */
    ghost predicate At(i: nat, a: nat)
      reads this
    {
      i <= |blocks| && a == if i < |blocks| then blocks[i].addr else 0
    }

    /** What the code reads from the header of block i, which a points at. */
    lemma ReadHeader(i: nat, a: nat)
      requires Linked() && i < |blocks| && At(i, a)
      ensures a == blocks[i].addr && 0 < a && blocks[i].End() <= EndOfHeap() <= mem.Length
      ensures a + HEADER <= mem.Length
      ensures var h := Read(a);
              && IsUsed(h.magic) == blocks[i].used && IsValid(h.magic) && h.size == blocks[i].size
              && At(i + 1, h.next) && (i > 0 ==> At(i - 1, h.previous))
              && (h.next == 0 <==> i + 1 == |blocks|) && (h.previous == 0 <==> i == 0)
    {
      hide HeaderAt;
      Bounds(blocks, firstBlock, EndOfHeap());
      assert HeaderAt(mem[..], blocks[i].addr) == Expected(blocks, i);
    }

    /** The first free block (kernel/kmalloc.cpp:102-105). */
    method FirstFree() returns (best: Outcome<nat>, ghost b: nat)
      requires Linked()
      ensures best.Halted? ==> AllUsed(blocks)
      ensures best.Done? ==> b < |blocks| && At(b, best.value) && !blocks[b].used
                             && forall i :: 0 <= i < b ==> blocks[i].used
    {
      var block: nat := firstBlock;
      b := 0;
      assert |blocks| > 0 && At(0, block);
      hide Read, Linked, IsUsed, At;
      ReadHeader(0, block);
      while IsUsed(Read(block).magic)
        invariant Linked() && b < |blocks| && At(b, block) && block + HEADER <= mem.Length
        invariant forall i :: 0 <= i < b ==> blocks[i].used
        decreases |blocks| - b
      {
        ReadHeader(b, block);
        if Read(block).next == 0 {
          return Halted, b;
        }
        block := Read(block).next;
        b := b + 1;
        ReadHeader(b, block);
      }
      ReadHeader(b, block);
      best := Done(block);
    }

    /** The state of the search loop: `current` stands at block c, `best` at block b. */
    ghost predicate Scanning(n: nat, first: nat, c: nat, current: nat, b: nat, best: nat)
      reads this, mem
    {
      && Linked() && At(c, current) && b < |blocks| && At(b, best) && BestSoFar(blocks, n, first, c, b)
      && forall i :: 0 <= i < first ==> blocks[i].used
    }

    lemma ScanStep(n: nat, first: nat, c: nat, current: nat, b: nat, best: nat)
      requires Scanning(n, first, c, current, b, best)
      ensures current == 0 ==> Found(blocks, n, b)
      ensures current != 0 ==> c < |blocks| && current + HEADER <= mem.Length && best + HEADER <= mem.Length
      ensures current != 0 ==>
                var h, size := Read(current), Read(best).size;
                if !IsUsed(h.magic) && n <= h.size && (h.size < size || size < n)
                then Scanning(n, first, c + 1, h.next, c, current)
                else Scanning(n, first, c + 1, h.next, b, best)
    {
      hide BestSoFar, Linked, Read, IsUsed;
      ReadHeader(b, best);
      if c < |blocks| {
        ReadHeader(c, current);
        BestStep(blocks, n, first, c, b);
      } else {
        BestEnd(blocks, n, first, b);
      }
    }

    /** The second loop of `get_suitable_block` (kernel/kmalloc.cpp:114-125). */
    method Scan(required: nat, firstFree: nat, ghost first: nat) returns (best: nat, ghost b: nat)
      requires Linked() && first < |blocks| && At(first, firstFree) && !blocks[first].used
      requires forall i :: 0 <= i < first ==> blocks[i].used
      ensures Found(blocks, required, b) && At(b, best)
    {
      hide *;
      ScanStart(required, firstFree, first);
      best, b := firstFree, first;
      var current: nat := firstBlock;
      ghost var c: nat := 0;
      while current != 0
        invariant Scanning(required, first, c, current, b, best)
        decreases |blocks| - c
      {
        ScanStep(required, first, c, current, b, best);
        var header, bestSize := Read(current), Read(best).size;
        if !IsUsed(header.magic) {
          if required <= header.size && (header.size < bestSize || bestSize < required) {
            best, b := current, c;
          }
        }
        current, c := header.next, c + 1;
      }
      ScanStep(required, first, c, current, b, best);
      ScanDone(required, first, c, current, b, best);
    }

    lemma ScanStart(required: nat, firstFree: nat, first: nat)
      requires Linked() && first < |blocks| && At(first, firstFree) && !blocks[first].used
      requires forall i :: 0 <= i < first ==> blocks[i].used
      ensures Scanning(required, first, 0, firstBlock, first, firstFree)
    {
      BestStart(blocks, required, first);
    }

    lemma ScanDone(n: nat, first: nat, c: nat, current: nat, b: nat, best: nat)
      requires Scanning(n, first, c, current, b, best)
      ensures b < |blocks| && At(b, best)
    {
    }

    /** The search of `get_suitable_block` (kernel/kmalloc.cpp:99-125): one pass that
        keeps the best free block seen, starting from the first free one. */
    method FindBlock(required: nat) returns (r: Outcome<nat>, ghost b: nat)
      requires Linked()
      ensures r.Halted? ==> AllUsed(blocks)
      ensures r.Done? ==> Found(blocks, required, b) && At(b, r.value)
    {
      hide *;
      r, b := FirstFree();
      if r.Done? {
        var best;
        best, b := Scan(required, r.value, b);
        r := Done(best);
      }
    }

    // ---------- Allocation ----------

    /** The tail of `alloc_internal` on the free block k of the list. */
    method HandOut(block: nat, n: nat, ghost k: nat)
      requires 0 < firstBlock && EndOfHeap() <= mem.Length <= WORD
      requires Tiles(blocks, firstBlock, EndOfHeap()) && LayoutBut(mem[..], blocks, k)
      requires k < |blocks| && block == blocks[k].addr && !blocks[k].used && n <= blocks[k].size
      modifies this`blocks, mem
      ensures blocks == Take(old(blocks), k, n)
      ensures HandedOut(old(mem[..]), mem[..], old(blocks), k, n, firstBlock, EndOfHeap())
    {
      ghost var m := mem[..];
      HandOutReady(m, blocks, k, n, firstBlock, EndOfHeap());
      hide HeaderAt, Layout, LayoutBut, Tiles, HandedOut, Finished, Take, WorthSplitting;
      Finish(mem, block, n);
      HandOutLifts(m, mem[..], blocks, k, n, firstBlock, EndOfHeap());
      blocks := Take(blocks, k, n);
    }

    /** `alloc_internal` without page alignment (kernel/kmalloc.cpp:133-137, 159-168): the
        best fit, or a failed assertion exactly when no free block is large enough. */
    method AllocInternal(n: nat) returns (r: Outcome<nat>)
      requires Valid() && n < WORD
      modifies this`blocks, mem
      ensures Valid()
      ensures r.Halted? <==> !Fits(old(blocks), n)
      ensures r.Halted? <==> forall j :: 0 <= j < |old(blocks)| ==> old(blocks)[j].used || old(blocks)[j].size < n
      ensures r.Halted? ==> mem[..] == old(mem[..]) && blocks == old(blocks)
      ensures r.Done? ==> AllocStep(old(blocks), n, blocks, r.value)
      ensures KeepsLive(old(mem[..]), mem[..], Live(old(blocks)), firstBlock, EndOfHeap())
    {
      ghost var m, bs := mem[..], blocks;
      ghost var k;
      r, k := FindBlock(n);
      if r.Halted? {
        Unchanged(m, bs);
        return;
      }
      var block := r.value;
      ReadHeader(k, block);
      if Read(block).size < n {
        Unchanged(m, bs);
        return Halted;
      }
      LayoutIsLayoutBut(m, bs, k);
      HandOut(block, n, k);
      TakeKeeps(bs, k, n, firstBlock, EndOfHeap());
      r := Done(block + HEADER);
    }

    lemma Unchanged(m: seq<Byte>, bs: seq<Block>)
      requires Tiles(bs, firstBlock, EndOfHeap()) && EndOfHeap() <= |m|
      ensures KeepsLive(m, m, Live(bs), firstBlock, EndOfHeap())
    {
      Bounds(bs, firstBlock, EndOfHeap());
    }

    // ---------- Free ----------

    /** The state of the two merge loops of `free`: `header` stands at the free block k,
        the live blocks are `live`, and their payloads are what they were in memory m. */
    ghost predicate Merging(m: seq<Byte>, live: set<Block>, header: nat, k: nat)
      reads this, mem
    {
      && Linked() && k < |blocks| && At(k, header) && !blocks[k].used
      && Live(blocks) == live && KeepsLive(m, mem[..], live, firstBlock, EndOfHeap())
    }

    /** One `merge_blocks` of two free neighbours. */
    method MergeFree(first: nat, second: nat, ghost k: nat, ghost m: seq<Byte>, ghost live: set<Block>)
      requires Merging(m, live, first, k) && k + 1 < |blocks| && At(k + 1, second) && !blocks[k + 1].used
      modifies this`blocks, mem
      ensures blocks == Merge(old(blocks), k) && Merging(m, live, first, k)
      ensures SameBytes(old(mem[..]), mem[..], second, old(blocks)[k + 1].End())
    {
      ghost var before, bs := mem[..], blocks;
      Absorb(first, second, k);
      LiveMerge(bs, k);
      assert forall b :: b in live ==> b in bs;
      KeepsLiveStep(m, before, mem[..], bs, live, firstBlock, EndOfHeap());
    }

    method MergeForwards(header: nat, ghost k: nat, ghost m: seq<Byte>, ghost live: set<Block>)
      requires Merging(m, live, header, k)
      modifies this`blocks, mem
      ensures blocks == MergeForward(old(blocks), k) && Merging(m, live, header, k)
    {
      while true
        invariant Merging(m, live, header, k)
        invariant MergeForward(blocks, k) == MergeForward(old(blocks), k)
        decreases |blocks|
      {
        hide Read, IsUsed, IsValid, Linked, KeepsLive, Live;
        ReadHeader(k, header);
        var next := Read(header).next;
        if next == 0 { break; }
        ReadHeader(k + 1, next);
        assert IsValid(Read(next).magic);
        if IsUsed(Read(next).magic) { break; }
        MergeFree(header, next, k, m, live);
      }
    }

    method MergeBackwards(header: nat, ghost k: nat, ghost m: seq<Byte>, ghost live: set<Block>)
      requires Merging(m, live, header, k)
      modifies this`blocks, mem
      ensures blocks == MergeBackward(old(blocks), k) && Linked() && Live(blocks) == live
      ensures KeepsLive(m, mem[..], live, firstBlock, EndOfHeap())
      ensures FreeHeader(header)
    {
      var current := header;
      ghost var i := k;
      OwnHeader(header, k);
      while true
        invariant Merging(m, live, current, i) && Covered(header, i)
        invariant MergeBackward(blocks, i) == MergeBackward(old(blocks), k)
        decreases i
      {
        hide Read, IsUsed, IsValid, Linked, KeepsLive, Live;
        ReadHeader(i, current);
        var previous := Read(current).previous;
        if previous == 0 { break; }
        ReadHeader(i - 1, previous);
        assert IsValid(Read(previous).magic);
        if IsUsed(Read(previous).magic) { break; }
        ghost var before, bs := mem[..], blocks;
        MergeFree(previous, current, i - 1, m, live);
        StaleHeader(before, bs, header, i);
        current, i := previous, i - 1;
      }
    }

    /** The bytes at a are a valid header that is marked free. */
    ghost predicate FreeHeader(a: nat)
      reads mem
    {
      a + HEADER <= mem.Length && IsValid(Read(a).magic) && !IsUsed(Read(a).magic)
    }

    /** A free header, block i's own or one left behind by a merge, lies in block i. */
    ghost predicate Covered(a: nat, i: nat)
      reads this, mem
    {
      FreeHeader(a) && i < |blocks| && blocks[i].addr <= a && a + HEADER <= blocks[i].End()
    }

    lemma OwnHeader(a: nat, k: nat)
      requires Linked() && k < |blocks| && At(k, a) && !blocks[k].used
      ensures Covered(a, k)
    {
      hide Read, IsUsed, IsValid;
      ReadHeader(k, a);
    }

    /** A merge leaves the header it swallows in place. */
    lemma StaleHeader(before: seq<Byte>, bs: seq<Block>, a: nat, i: nat)
      requires Tiles(bs, firstBlock, EndOfHeap()) && 0 < i < |bs| && blocks == Merge(bs, i - 1)
      requires SameBytes(before, mem[..], bs[i].addr, bs[i].End())
      requires bs[i].addr <= a && a + HEADER <= bs[i].End() && bs[i].End() <= |before|
      requires IsValid(HeaderAt(before, a).magic) && !IsUsed(HeaderAt(before, a).magic)
      ensures Covered(a, i - 1)
    {
      hide HeaderAt, IsValid, IsUsed;
      HeaderSame(before, mem[..], a);
    }

    /** Where `free` may be pointed: at the payload of a block, or anywhere else where no
        valid header marked used precedes the pointer. A header that a merge left behind is
        marked free. */
    ghost predicate Known(p: nat)
      reads this, mem
    {
      && HEADER <= p <= mem.Length
      && (IsBlock(p) || !IsValid(Read(p - HEADER).magic) || !IsUsed(Read(p - HEADER).magic))
    }

    /** Mark the block free; its live neighbours and all other live payloads stay. */
    method MarkFree(header: nat, ghost k: nat)
      requires Linked() && k < |blocks| && At(k, header) && blocks[k].used
      modifies this`blocks, mem
      ensures blocks == SetUsed(old(blocks), k, false)
      ensures Merging(old(mem[..]), Live(old(blocks)) - {old(blocks)[k]}, header, k)
    {
      ghost var m, bs := mem[..], blocks;
      ReadHeader(k, header);
      LayoutIsLayoutBut(m, bs, k);
      var magic := Read(header).magic;
      SetField(mem, header, MAGIC_AT, magic - magic % 2);
      blocks := SetUsed(blocks, k, false);
      FreeMarked(m, mem[..], bs, k, firstBlock, EndOfHeap());
    }

    lemma KnownPointer(p: nat) returns (k: nat)
      requires Valid() && Known(p)
      ensures IsBlock(p) ==> IsValid(Read(p - HEADER).magic)
      ensures IsBlock(p) ==> k < |blocks| && blocks[k].Data() == p && At(k, p - HEADER)
                             && IsUsed(Read(p - HEADER).magic) == blocks[k].used
    {
      hide Read, IsValid, IsUsed;
      k := 0;
      if IsBlock(p) {
        k :| 0 <= k < |blocks| && blocks[k].Data() == p;
        ReadHeader(k, p - HEADER);
      }
    }

    /** The rest of `free` for a used block (kernel/kmalloc.cpp:181-216). */
    method FreeUsed(header: nat, ghost k: nat)
      requires Valid() && k < |blocks| && At(k, header) && blocks[k].used
      modifies this`blocks, mem
      ensures Valid() && blocks == Release(old(blocks), k)
      ensures KeepsLive(old(mem[..]), mem[..], Live(blocks), firstBlock, EndOfHeap())
      ensures FreeHeader(header)
    {
      ghost var m, bs := mem[..], blocks;
      ReleaseKeeps(bs, k, firstBlock, EndOfHeap());
      ghost var live := Live(bs) - {bs[k]};
      MarkFree(header, k);
      MergeForwards(header, k, m, live);
      MergeBackwards(header, k, m, live);
    }

    /** `free` (kernel/kmalloc.cpp:174-217). It returns exactly when the pointer stands
        behind a valid header, does nothing when that header is marked free, and leaves it
        marked free, also where a merge swallowed it: a second `free` does nothing. */
    method Free(p: nat) returns (returned: bool)
      requires Valid() && Known(p)
      modifies this`blocks, mem
      ensures Valid()
      ensures returned <==> old(IsValid(Read(p - HEADER).magic))
      ensures old(IsBlock(p)) ==> returned && FreeStep(old(blocks), p, blocks)
      ensures !old(IsBlock(p)) || old(FreeHeader(p - HEADER)) ==> mem[..] == old(mem[..]) && blocks == old(blocks)
      ensures KeepsLive(old(mem[..]), mem[..], Live(blocks), firstBlock, EndOfHeap())
      ensures returned ==> Known(p) && FreeHeader(p - HEADER)
    {
      var header := p - HEADER;
      ghost var k := KnownPointer(p);
      Unchanged(mem[..], blocks);
      hide Valid, Read, IsUsed, IsValid, KeepsLive, Live, At;
      if !IsValid(Read(header).magic) {
        return false;
      }
      if !IsUsed(Read(header).magic) {
        return true;
      }
      FreeUsed(header, k);
      returned := true;
    }

    // ---------- Realloc ----------

    /** Give back what a merged block does not need (kernel/kmalloc.cpp:241-243). */
    method CutRest(header: nat, n: nat, mergeSize: nat, ghost k: nat, ghost m: seq<Byte>, ghost bs: seq<Block>)
      requires HeapShape(bs, firstBlock, EndOfHeap()) && EndOfHeap() <= |m| <= WORD
      requires k < |bs| && bs[k].used && CanGrow(bs, k, n) && bs[k].size < n
      requires Linked() && blocks == Merge(bs, k) && At(k, header) && mergeSize == blocks[k].size
      requires SamePayloads(m, mem[..], bs) && SameOutside(m, mem[..], firstBlock, EndOfHeap())
      modifies this`blocks, mem
      ensures Valid() && blocks == Grow(bs, k, n) && KeepsLive(m, mem[..], Live(bs), firstBlock, EndOfHeap())
    {
      hide Layout, Linked, Valid, Live, KeepsLive, SamePayloads, HeaderAt, SplitOff, SplitSteps, Grow, Merge, NextApart,
           Coalesced, Tiles, At;
      ghost var m' := mem[..];
      CutReady(header, n, k, bs);
      if mergeSize - n > MIN_BLOCK_SIZE + HEADER {
        CreateNewBlockHeader(mem, header, n);
      }
      GrowLifts(m, m', mem[..], bs, k, n, firstBlock, EndOfHeap());
      ghost var grown := GrowKeeps(bs, k, n, firstBlock, EndOfHeap());
      blocks := Grow(bs, k, n);
      Grown();
    }

    lemma CutReady(header: nat, n: nat, k: nat, bs: seq<Block>)
      requires Linked() && k < |bs| && CanGrow(bs, k, n) && blocks == Merge(bs, k) && At(k, header)
      ensures 0 < firstBlock && EndOfHeap() <= mem.Length <= WORD && Layout(mem[..], Merge(bs, k))
      ensures header == bs[k].addr && header + HEADER <= mem.Length && NextApart(mem[..], header)
      ensures var h := HeaderAt(mem[..], header); h.next != 0 ==> h.next + HEADER <= mem.Length
      ensures n <= blocks[k].size
      ensures blocks[k].size - n > MIN_BLOCK_SIZE + HEADER ==> header + HEADER + n + HEADER <= mem.Length
    {
      LayoutIsLayoutBut(mem[..], blocks, k);
      HandOutReady(mem[..], blocks, k, n, firstBlock, EndOfHeap());
    }

    lemma Grown()
      requires 0 < firstBlock && EndOfHeap() <= mem.Length <= WORD
      requires HeapShape(blocks, firstBlock, EndOfHeap()) && Layout(mem[..], blocks)
      ensures Valid()
    {
    }

    /** Growing in place (kernel/kmalloc.cpp:236-244). */
    method GrowInPlace(header: nat, n: nat, ghost k: nat)
      requires Valid() && k < |blocks| && At(k, header) && blocks[k].used
      requires CanGrow(blocks, k, n) && blocks[k].size < n
      modifies this`blocks, mem
      ensures Valid() && blocks == Grow(old(blocks), k, n)
      ensures KeepsLive(old(mem[..]), mem[..], Live(old(blocks)), firstBlock, EndOfHeap())
    {
      ghost var m, bs := mem[..], blocks;
      ReadHeader(k, header);
      var next := Read(header).next;
      ReadHeader(k + 1, next);
      var mergeSize := Read(next).size + Read(header).size + HEADER;
      assert n <= mergeSize < WORD;
      Absorb(header, next, k);
      CutRest(header, n, mergeSize, k, m, bs);
    }

    /** Copy the whole payload of live block j into the larger live block l. */
    method CopyPayload(ptr: nat, newPtr: nat, len: nat, ghost j: nat, ghost l: nat)
      requires Valid() && j < |blocks| && l < |blocks| && j != l && blocks[j].used && blocks[l].used
      requires ptr == blocks[j].Data() && newPtr == blocks[l].Data() && len == blocks[j].size <= blocks[l].size
      modifies mem
      ensures Valid()
      ensures KeepsLive(old(mem[..]), mem[..], Live(blocks) - {blocks[l]}, firstBlock, EndOfHeap())
      ensures blocks[j].End() <= mem.Length && newPtr + len <= mem.Length
      ensures mem[..][newPtr..newPtr + len] == Payload(old(mem[..]), blocks[j])
    {
      ghost var m := mem[..];
      Bounds(blocks, firstBlock, EndOfHeap());
      PayloadsDisjoint(blocks, firstBlock, EndOfHeap(), blocks[j], blocks[l]);
      MemCopy(mem, newPtr, ptr, len);
      CopyLifts(m, mem[..], blocks, l, firstBlock, EndOfHeap());
      assert mem[..][newPtr..newPtr + len] == mem[newPtr..newPtr + len];
      assert m[ptr..ptr + len] == old(mem[ptr..ptr + len]);
    }

    lemma MovedPositions(bs: seq<Block>, k: nat, middle: seq<Block>, c: Block) returns (j: nat, l: nat)
      requires k < |bs| && bs[k].used && Live(middle) == Live(bs) + {c} && c !in Live(bs) && c.used
      ensures j < |middle| && middle[j] == bs[k] && l < |middle| && middle[l] == c && j != l
    {
      assert bs[k] in Live(bs);
      assert bs[k] in Live(middle) && c in Live(middle);
      j :| 0 <= j < |middle| && middle[j] == bs[k];
      l :| 0 <= l < |middle| && middle[l] == c;
    }

    lemma ReadyToCopy(ptr: nat, j: nat)
      requires Valid() && j < |blocks| && ptr == blocks[j].Data() && blocks[j].used
      ensures HEADER <= ptr <= mem.Length && At(j, ptr - HEADER) && Read(ptr - HEADER).size == blocks[j].size
      ensures blocks[j].End() <= mem.Length
      ensures Live(Release(blocks, j)) == Live(blocks) - {blocks[j]}
    {
      hide Read, Live, Release;
      ReadHeader(j, ptr - HEADER);
      ReleaseKeeps(blocks, j, firstBlock, EndOfHeap());
    }

    /** Copy live block j into the larger live block l and free block j. */
    method CopyAndFree(ptr: nat, newPtr: nat, ghost j: nat, ghost l: nat)
      requires Valid() && j < |blocks| && l < |blocks| && j != l && blocks[j].used && blocks[l].used
      requires ptr == blocks[j].Data() && newPtr == blocks[l].Data() && blocks[j].size <= blocks[l].size
      modifies this`blocks, mem
      ensures Valid() && blocks == Release(old(blocks), j)
      ensures old(blocks)[j].End() <= mem.Length
      ensures CopiedAndFreed(old(mem[..]), mem[..], old(blocks), j, l, firstBlock, EndOfHeap())
    {
      hide *;
      ghost var m, bs := mem[..], blocks;
      ReadyToCopy(ptr, j);
      var header := ptr - HEADER;
      CopyPayload(ptr, newPtr, Read(header).size, j, l);
      ghost var copy := mem[..];
      FreeUsed(header, j);
      CopiedWitness(m, copy, mem[..], bs, j, l, firstBlock, EndOfHeap());
    }

    lemma MovedPayloads(m: seq<Byte>, m1: seq<Byte>, m3: seq<Byte>, bs: seq<Block>, k: nat, middle: seq<Block>, j: nat,
                        l: nat)
      requires k < |bs| && bs[k].used && j < |middle| && l < |middle| && middle[j] == bs[k] && middle[l].used
      requires bs[k].size <= middle[l].size && middle[l] !in Live(bs) && Live(middle) == Live(bs) + {middle[l]}
      requires KeepsLive(m, m1, Live(bs), firstBlock, EndOfHeap()) && middle[j].End() <= |m1|
      requires CopiedAndFreed(m1, m3, middle, j, l, firstBlock, EndOfHeap())
      ensures Carried(m, m3, bs, k, middle[l].Data(), firstBlock, EndOfHeap())
    {
      hide KeepsLive, Live, Payload;
      var b, c := bs[k], middle[l];
      LiveMember(bs, b);
      LiveMember(middle, c);
      var m2: seq<Byte> :|
        && KeepsLive(m1, m2, Live(middle) - {c}, firstBlock, EndOfHeap()) && c.Data() + b.size <= |m2|
        && m2[c.Data()..c.Data() + b.size] == Payload(m1, b)
        && KeepsLive(m2, m3, Live(middle) - {b}, firstBlock, EndOfHeap());
      KeptPayload(m, m1, Live(bs), b, firstBlock, EndOfHeap());
      KeptPrefix(m2, m3, Live(middle) - {b}, c, b.size, firstBlock, EndOfHeap());
      var rest := Live(bs) - {b};
      KeepsLess(m, m1, Live(bs), rest, firstBlock, EndOfHeap());
      KeepsLess(m1, m2, Live(middle) - {c}, rest, firstBlock, EndOfHeap());
      KeepsLess(m2, m3, Live(middle) - {b}, rest, firstBlock, EndOfHeap());
      KeepsThen(m, m1, m2, rest, firstBlock, EndOfHeap());
      KeepsThen(m, m2, m3, rest, firstBlock, EndOfHeap());
    }

    /** Starting from scratch (kernel/kmalloc.cpp:230-234). */
    method Move(ptr: nat, n: nat, ghost k: nat) returns (r: Outcome<nat>)
      requires Valid() && k < |blocks| && blocks[k].Data() == ptr && blocks[k].used && blocks[k].size < n < WORD
      modifies this`blocks, mem
      ensures Valid()
      ensures r.Halted? <==> !Fits(old(blocks), n)
      ensures r.Halted? ==> mem[..] == old(mem[..]) && blocks == old(blocks)
      ensures r.Done? ==> MoveStep(old(blocks), ptr, n, blocks, r.value)
      ensures r.Done? ==> Carried(old(mem[..]), mem[..], old(blocks), k, r.value, firstBlock, EndOfHeap())
    {
      ghost var m, bs := mem[..], blocks;
      assert HeapShape(bs, firstBlock, EndOfHeap());
      hide Valid, Fits, KeepsLive, AllocStep, Live, Release, MoveStep, Carried, CopiedAndFreed, HeapShape;
      r := AllocInternal(n);
      if r.Done? {
        ghost var m1, middle := mem[..], blocks;
        ghost var c := AllocKeeps(bs, n, middle, r.value, firstBlock, EndOfHeap());
        ghost var j, l := MovedPositions(bs, k, middle, c);
        CopyAndFree(ptr, r.value, j, l);
        MovedPayloads(m, m1, mem[..], bs, k, middle, j, l);
        MoveStepHolds(bs, n, middle, r.value, j, blocks);
      }
    }

    static lemma MoveStepHolds(bs: seq<Block>, n: nat, middle: seq<Block>, q: nat, j: nat, bs': seq<Block>)
      requires AllocStep(bs, n, middle, q) && j < |middle| && bs' == Release(middle, j)
      ensures MoveStep(bs, middle[j].Data(), n, bs', q)
    {
    }

    /** What `krealloc` reads to decide whether block k can grow in place. */
    lemma ReadGrowth(k: nat, header: nat, n: nat)
      requires Valid() && k < |blocks| && At(k, header) && blocks[k].used
      ensures header + HEADER <= mem.Length && blocks[k].End() <= mem.Length
      ensures var h := Read(header);
              && h.size == blocks[k].size && blocks[k].Data() == header + HEADER
              && (h.next != 0 ==> h.next + HEADER <= mem.Length)
              && (CanGrow(blocks, k, n) <==>
                    h.next != 0 && !IsUsed(Read(h.next).magic) && n <= Read(h.next).size + h.size + HEADER)
    {
      hide Read, IsUsed, IsValid;
      ReadHeader(k, header);
      if Read(header).next != 0 { ReadHeader(k + 1, Read(header).next); }
    }

    /** A block that stays where it is keeps its payload with the others. */
    lemma CarriedInPlace(m: seq<Byte>, m': seq<Byte>, bs: seq<Block>, k: nat)
      requires k < |bs| && bs[k].used && bs[k].End() <= |m| && KeepsLive(m, m', Live(bs), firstBlock, EndOfHeap())
      ensures Carried(m, m', bs, k, bs[k].Data(), firstBlock, EndOfHeap())
    {
    }

    /** Past the validity check of `krealloc` (kernel/kmalloc.cpp:223-244). */
    method ReallocUsed(ptr: nat, header: nat, n: nat, ghost k: nat) returns (r: Outcome<nat>)
      requires Valid() && k < |blocks| && At(k, header) && blocks[k].used && ptr == header + HEADER && n < WORD
      modifies this`blocks, mem
      ensures Valid()
      ensures r.Halted? ==> mem[..] == old(mem[..]) && blocks == old(blocks)
      ensures r.Halted? <==> ReallocHalts(old(blocks), k, n)
      ensures r.Done? ==> ReallocAt(old(blocks), k, n, blocks, r.value)
      ensures r.Done? ==> Carried(old(mem[..]), mem[..], old(blocks), k, r.value, firstBlock, EndOfHeap())
    {
      hide Read, IsUsed, CanGrow, Grow, Fits, MoveStep, Live, KeepsLive, Carried, Payload;
      ghost var m, bs := mem[..], blocks;
      ReadGrowth(k, header, n);
      Unchanged(m, bs);
      hide Valid, Linked, At;
      if n <= Read(header).size {
        r := Done(ptr);
        CarriedInPlace(m, mem[..], bs, k);
      } else if Read(header).next == 0 || IsUsed(Read(Read(header).next).magic)
                || Read(Read(header).next).size + Read(header).size + HEADER < n {
        r := Move(ptr, n, k);
      } else {
        GrowInPlace(header, n, k);
        r := Done(ptr);
        CarriedInPlace(m, mem[..], bs, k);
      }
    }

    /** p is the payload of a live block, or no valid header precedes it. */
    ghost predicate KnownLive(p: nat)
      reads this, mem
    {
      && HEADER <= p <= mem.Length && (IsBlock(p) || !IsValid(Read(p - HEADER).magic))
      && forall k :: 0 <= k < |blocks| && blocks[k].Data() == p ==> blocks[k].used
    }

    /** `krealloc` (kernel/kmalloc.cpp:219-245): the block at the result holds at least n
        bytes and starts with the old payload, and every other live payload is kept. */
    method Krealloc(ptr: nat, n: nat) returns (r: Outcome<nat>)
      requires Valid() && KnownLive(ptr) && n < WORD
      modifies this`blocks, mem
      ensures Valid()
      ensures !old(IsBlock(ptr)) ==> r.Halted?
      ensures r.Halted? ==> mem[..] == old(mem[..]) && blocks == old(blocks)
      ensures r.Done? ==> ReallocStep(old(blocks), ptr, n, blocks, r.value)
      ensures forall k :: 0 <= k < |old(blocks)| && old(blocks)[k].Data() == ptr ==>
                && (r.Halted? <==> ReallocHalts(old(blocks), k, n))
                && (r.Done? ==> Carried(old(mem[..]), mem[..], old(blocks), k, r.value, firstBlock, EndOfHeap()))
    {
      ghost var k := KnownPointer(ptr);
      OnlyPosition(ptr, k);
      var header := ptr - HEADER;
      hide Valid, Read, IsValid, ReallocHalts, Carried, At, ReallocAt;
      if IsValid(Read(header).magic) {
        r := ReallocUsed(ptr, header, n, k);
      } else {
        r := Halted;
      }
    }

    lemma OnlyPosition(p: nat, k: nat)
      requires Valid() && (IsBlock(p) ==> k < |blocks| && blocks[k].Data() == p)
      ensures forall l :: 0 <= l < |blocks| && blocks[l].Data() == p ==> l == k
    {
      Bounds(blocks, firstBlock, EndOfHeap());
    }
  }
}
