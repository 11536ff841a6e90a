/** The two functions of kernel/kmalloc.cpp that rewrite block headers in place, and
    what their writes mean for a block list. */
module HeapHeaders {
  import opened Memory
  import opened HeapBlocks
  import opened HeapMemory
  import opened HeapTheorems

  /** `header->field = w` */
  method SetField(mem: array<Byte>, a: nat, at: nat, w: nat)
    requires a + HEADER <= mem.Length && IsField(at) && w < WORD
    modifies mem
    ensures Stored(old(mem[..]), mem[..], a + at, w)
    ensures HeaderAt(mem[..], a) == WithField(old(HeaderAt(mem[..], a)), at, w)
    ensures OnlyAt(old(mem[..]), mem[..], a, a, a)
    ensures forall b: nat :: b + HEADER <= mem.Length && Apart(a, b) ==>
              HeaderAt(mem[..], b) == old(HeaderAt(mem[..], b))
  {
    ghost var m := mem[..];
    WriteWord(mem, a + at, w);
    FieldWriteHere(m, mem[..], a, at, w);
    forall b: nat | b + HEADER <= mem.Length && Apart(a, b)
      ensures HeaderAt(mem[..], b) == HeaderAt(m, b)
    {
      HeaderSame(m, mem[..], b);
    }
  }

  /** The header writes of `create_heap` (kernel/kmalloc.cpp:52-56). */
  method WriteFirstHeader(mem: array<Byte>, start: nat, size: nat)
    requires 0 < start && HEADER <= size && start + size <= mem.Length <= WORD
    modifies mem
    ensures HeaderAt(mem[..], start) == Header(MAGIC, size - HEADER, 0, 0)
    ensures OnlyAt(old(mem[..]), mem[..], start, start, start)
  {
    hide Word, HeaderAt;
    SetField(mem, start, MAGIC_AT, MAGIC);
    SetField(mem, start, SIZE_AT, size);
    SetField(mem, start, SIZE_AT, size - HEADER);
    SetField(mem, start, NEXT_AT, 0);
    SetField(mem, start, PREVIOUS_AT, 0);
  }

  /** m' is m after the header at `first` absorbed the block of the header at `second`. */
  ghost predicate Merged(m: seq<Byte>, m': seq<Byte>, first: nat, second: nat) {
    && first + HEADER <= |m| && second + HEADER <= |m| && |m'| == |m|
    && var f, s := HeaderAt(m, first), HeaderAt(m, second);
    && HeaderAt(m', first) == f.(next := s.next, size := U32(f.size + s.size + HEADER))
    && (s.next != 0 ==> (
          && s.next + HEADER <= |m|
          && HeaderAt(m', s.next) == HeaderAt(m, s.next).(previous := first)))
    && OnlyAt(m, m', first, first, if s.next != 0 then s.next else first)
  }

  /** m' is m after a new free header was cut off `size` bytes into the block at `block`. */
  ghost predicate SplitOff(m: seq<Byte>, m': seq<Byte>, block: nat, size: nat) {
    var rest := block + HEADER + size;
    && rest + HEADER <= |m| && |m'| == |m|
    && var b := HeaderAt(m, block);
    && HeaderAt(m', block) == Header(b.magic - b.magic % 2 + 1, size, rest, b.previous)
    && HeaderAt(m', rest) == Header(MAGIC, U32(b.size - size - HEADER), b.next, block)
    && (b.next != 0 ==> (
          && b.next + HEADER <= |m|
          && (Apart(b.next, rest) ==> HeaderAt(m', b.next) == HeaderAt(m, b.next).(previous := rest))))
    && OnlyAt(m, m', block, rest, if b.next != 0 then b.next else block)
  }

  /** `merge_blocks` (kernel/kmalloc.cpp:26-35). */
  method MergeBlocks(mem: array<Byte>, first: nat, second: nat)
    requires mem.Length <= WORD && first + HEADER <= mem.Length && second + HEADER <= mem.Length
    requires HeaderAt(mem[..], first).next == second && Apart(first, second)
    requires var next := HeaderAt(mem[..], second).next;
             next != 0 ==> next + HEADER <= mem.Length && Apart(next, first) && Apart(next, second)
    modifies mem
    ensures Merged(old(mem[..]), mem[..], first, second)
  {
    hide Word, HeaderAt;
    SetField(mem, first, NEXT_AT, HeaderAt(mem[..], second).next);
    var next := HeaderAt(mem[..], first).next;
    if next != 0 {
      SetField(mem, next, PREVIOUS_AT, first);
    }
    SetField(mem, first, SIZE_AT, U32(HeaderAt(mem[..], first).size + HeaderAt(mem[..], second).size + HEADER));
  }

  /** m0 is m after the back link of the header behind the block was set. */
  ghost predicate LinkedBack(m: seq<Byte>, m0: seq<Byte>, block: nat, rest: nat) {
    && block + HEADER <= |m|
    && var next := HeaderAt(m, block).next;
       if next == 0 then m0 == m else next + HEADER <= |m| && Stored(m, m0, next + PREVIOUS_AT, rest)
  }

  /** m' is m0 after the two headers of a split were written. */
  ghost predicate SplitHere(m0: seq<Byte>, m': seq<Byte>, block: nat, size: nat) {
    var rest := block + HEADER + size;
    && rest + HEADER <= |m0| == |m'|
    && var b := HeaderAt(m0, block);
    && HeaderAt(m', block) == Header(b.magic - b.magic % 2 + 1, size, rest, b.previous)
    && HeaderAt(m', rest) == Header(MAGIC, U32(b.size - size - HEADER), b.next, block)
    && OnlyAt(m0, m', block, rest, block)
  }

  /** m' is m after `create_new_block_header`, whatever the block's next link points at: the
      back link is set first, and may change the header that is read afterwards. */
  ghost predicate SplitSteps(m: seq<Byte>, m': seq<Byte>, block: nat, size: nat) {
    exists m0: seq<Byte> :: LinkedBack(m, m0, block, block + HEADER + size) && SplitHere(m0, m', block, size)
  }

  /** The header behind the block does not overlap the block's own. */
  ghost predicate NextApart(m: seq<Byte>, block: nat) {
    && block + HEADER <= |m|
    && var next := HeaderAt(m, block).next;
       next != 0 ==> next + HEADER <= |m| && Apart(next, block)
  }

  lemma StepsSplitOff(m: seq<Byte>, m': seq<Byte>, block: nat, size: nat)
    requires SplitSteps(m, m', block, size) && NextApart(m, block)
    ensures SplitOff(m, m', block, size)
  {
    hide HeaderAt;
    var rest := block + HEADER + size;
    var m0: seq<Byte> :| LinkedBack(m, m0, block, rest) && SplitHere(m0, m', block, size);
    var next := HeaderAt(m, block).next;
    if next != 0 {
      FieldWriteHere(m, m0, next, PREVIOUS_AT, rest);
      HeaderSame(m, m0, block);
      if Apart(next, rest) {
        HeaderFrame(m0, m', block, rest, block, next);
      }
    }
  }

  /** `create_new_block_header` (kernel/kmalloc.cpp:141-157). */
  method CreateNewBlockHeader(mem: array<Byte>, block: nat, size: nat)
    requires mem.Length <= WORD && block + HEADER + size + HEADER <= mem.Length
    requires var next := HeaderAt(mem[..], block).next; next != 0 ==> next + HEADER <= mem.Length
    modifies mem
    ensures SplitSteps(old(mem[..]), mem[..], block, size)
    ensures old(NextApart(mem[..], block)) ==> SplitOff(old(mem[..]), mem[..], block, size)
  {
    hide Word, HeaderAt, SplitOff, Stored;
    ghost var m := mem[..];
    var newBlock := block + HEADER + size;
    if HeaderAt(mem[..], block).next != 0 {
      SetField(mem, HeaderAt(mem[..], block).next, PREVIOUS_AT, newBlock);
    }
    ghost var m0 := mem[..];
    var header := HeaderAt(mem[..], block);
    FillHeader(mem, newBlock, header.next, block, U32(header.size - size - HEADER));
    CutHeader(mem, block, newBlock, size);
    assert LinkedBack(m, m0, block, newBlock) && SplitHere(m0, mem[..], block, size);
    if NextApart(m, block) {
      StepsSplitOff(m, mem[..], block, size);
    }
  }

  /** The new header behind the block (kernel/kmalloc.cpp:149-152). */
  method FillHeader(mem: array<Byte>, a: nat, next: nat, previous: nat, size: nat)
    requires a + HEADER <= mem.Length && next < WORD && previous < WORD && size < WORD
    modifies mem
    ensures HeaderAt(mem[..], a) == Header(MAGIC, size, next, previous) && OnlyAt(old(mem[..]), mem[..], a, a, a)
    ensures forall b: nat :: b + HEADER <= mem.Length && Apart(a, b) ==>
              HeaderAt(mem[..], b) == old(HeaderAt(mem[..], b))
  {
    hide Word, HeaderAt;
    SetField(mem, a, NEXT_AT, next);
    SetField(mem, a, PREVIOUS_AT, previous);
    SetField(mem, a, SIZE_AT, size);
    SetField(mem, a, MAGIC_AT, MAGIC);
  }

  /** The block's own header (kernel/kmalloc.cpp:154-156). */
  method CutHeader(mem: array<Byte>, a: nat, next: nat, size: nat)
    requires a + HEADER <= mem.Length && next < WORD && size < WORD
    modifies mem
    ensures var h := old(HeaderAt(mem[..], a));
            HeaderAt(mem[..], a) == Header(h.magic - h.magic % 2 + 1, size, next, h.previous)
    ensures OnlyAt(old(mem[..]), mem[..], a, a, a)
    ensures forall b: nat :: b + HEADER <= mem.Length && Apart(a, b) ==>
              HeaderAt(mem[..], b) == old(HeaderAt(mem[..], b))
  {
    hide Word, HeaderAt;
    SetField(mem, a, NEXT_AT, next);
    SetField(mem, a, SIZE_AT, size);
    var magic := HeaderAt(mem[..], a).magic;
    SetField(mem, a, MAGIC_AT, magic - magic % 2 + 1);
  }

  /** On a heap, `merge_blocks` merges two list neighbours and touches nothing else. */
  lemma MergeLifts(m: seq<Byte>, m': seq<Byte>, bs: seq<Block>, k: nat, start: nat, end: nat)
    requires 0 < start && Tiles(bs, start, end) && Layout(m, bs) && end <= |m| <= WORD && k + 1 < |bs|
    requires Merged(m, m', bs[k].addr, bs[k + 1].addr)
    ensures Layout(m', Merge(bs, k)) && SamePayloads(m, m', bs) && SameOutside(m, m', start, end)
  {
    hide HeaderAt, Payload;
    Bounds(bs, start, end);
    assert HeaderAt(m, bs[k + 1].addr) == Expected(bs, k + 1);
    HeadersFrame(m, m', bs, k, k, if k + 2 < |bs| then k + 2 else k, start, end);
    MergeLayout(m, m', bs, k);
  }

  lemma SplitFrame(m: seq<Byte>, m': seq<Byte>, bs: seq<Block>, k: nat, n: nat, start: nat, end: nat)
    requires Tiles(bs, start, end) && end <= |m| && InMemory(m, bs) && k < |bs| && n + HEADER <= bs[k].size
    requires var next := if k + 1 < |bs| then bs[k + 1].addr else bs[k].addr;
             OnlyAt(m, m', bs[k].addr, bs[k].addr + HEADER + n, next)
    ensures SamePayloads(m, m', Split(bs, k, n)) && SameOutside(m, m', start, end)
    ensures forall j {:trigger HeaderAt(m', bs[j].addr)} :: 0 <= j < |bs| && j != k && j != k + 1 ==>
              HeaderAt(m', bs[j].addr) == HeaderAt(m, bs[j].addr)
  {
    hide HeaderAt, Payload, Expected;
    var r := Split(bs, k, n);
    SplitTiles(bs, k, n, start, end);
    SplitExpected(bs, k, n, k);
    SplitExpected(bs, k, n, k + 1);
    if k + 1 < |bs| { SplitExpected(bs, k, n, k + 2); }
    HeadersFrame(m, m', r, k, k + 1, if k + 1 < |bs| then k + 2 else k, start, end);
    forall j | 0 <= j < |bs| && j != k && j != k + 1 ensures HeaderAt(m', bs[j].addr) == HeaderAt(m, bs[j].addr) {
      SplitExpected(bs, k, n, if j < k then j else j + 1);
    }
  }

  /** On a heap, `create_new_block_header` splits block k and touches nothing else; the
      back link of the following block is repaired whatever it held before. */
  lemma SplitLifts(m: seq<Byte>, m': seq<Byte>, bs: seq<Block>, k: nat, n: nat, start: nat, end: nat)
    requires 0 < start && Tiles(bs, start, end) && LayoutBut(m, bs, k) && end <= |m| <= WORD
    requires k < |bs| && n + HEADER <= bs[k].size && SplitOff(m, m', bs[k].addr, n)
    ensures Layout(m', Split(bs, k, n)) && SamePayloads(m, m', Split(bs, k, n)) && SameOutside(m, m', start, end)
  {
    hide HeaderAt, Payload, Tiles, Split, SamePayloads, SameOutside;
    Bounds(bs, start, end);
    var h := HeaderAt(m, bs[k].addr);
    assert h == Header(MagicOf(bs[k].used), bs[k].size, NextOf(bs, k), PreviousOf(bs, k));
    assert U32(h.size - n - HEADER) == bs[k].size - n - HEADER;
    SplitFrame(m, m', bs, k, n, start, end);
    SplitLayout(m, m', bs, k, n);
  }

  lemma InitialLayout(m: seq<Byte>, m': seq<Byte>, start: nat, size: nat)
    requires 0 < start && HEADER <= size && start + size <= |m| && OnlyAt(m, m', start, start, start)
    requires HeaderAt(m', start) == Header(MAGIC, size - HEADER, 0, 0)
    ensures Layout(m', Initial(start, start + size)) && HeapShape(Initial(start, start + size), start, start + size)
    ensures SameOutside(m, m', start, start + size)
  {
  }

  /** m' is m with the magic word of the header at a replaced. */
  ghost predicate Marked(m: seq<Byte>, m': seq<Byte>, a: nat, used: bool) {
    && a + HEADER <= |m| && OnlyAt(m, m', a, a, a)
    && HeaderAt(m', a) == HeaderAt(m, a).(magic := MagicOf(used))
  }

  method Mark(mem: array<Byte>, a: nat, used: bool)
    requires a + HEADER <= mem.Length
    modifies mem
    ensures Marked(old(mem[..]), mem[..], a, used)
  {
    hide HeaderAt;
    SetField(mem, a, MAGIC_AT, if used then MAGIC + 1 else MAGIC);
  }

  /** Marking block k used or free changes its state in the list and touches nothing else. */
  lemma MarkLifts(m: seq<Byte>, m': seq<Byte>, bs: seq<Block>, k: nat, used: bool, start: nat, end: nat)
    requires Tiles(bs, start, end) && LayoutBut(m, bs, k) && end <= |m| && k < |bs|
    requires Marked(m, m', bs[k].addr, used)
    ensures LayoutBut(m', SetUsed(bs, k, used), k)
    ensures Layout(m, bs) ==> Layout(m', SetUsed(bs, k, used))
    ensures k + 1 < |bs| ==> HeaderAt(m', bs[k + 1].addr) == HeaderAt(m, bs[k + 1].addr)
    ensures SamePayloads(m, m', bs) && SameOutside(m, m', start, end)
  {
    hide HeaderAt, Payload, Tiles, SamePayloads, SameOutside;
    HeadersFrame(m, m', bs, k, k, k, start, end);
    var r := SetUsed(bs, k, used);
    assert forall i :: 0 <= i < |bs| ==>
        Expected(r, i) == if i == k then Expected(bs, k).(magic := MagicOf(used)) else Expected(bs, i);
  }

  /** What the tail of `alloc_internal` leaves behind: block k taken, every payload of a
      live block kept, and the whole list intact when it was before or when a new header
      was cut off behind the block. */
  ghost predicate HandedOut(m: seq<Byte>, m': seq<Byte>, bs: seq<Block>, k: nat, n: nat, start: nat, end: nat)
    requires k < |bs| && n <= bs[k].size
  {
    && InMemory(m, bs)
    && LayoutBut(m', Take(bs, k, n), k)
    && (Layout(m, bs) || WorthSplitting(bs[k].size, n) || k + 1 == |bs| ==> Layout(m', Take(bs, k, n)))
    && (!WorthSplitting(bs[k].size, n) && k + 1 < |bs| ==>
          HeaderAt(m', bs[k + 1].addr) == HeaderAt(m, bs[k + 1].addr))
    && KeepsLive(m, m', Live(bs), start, end)
  }

  /** m' is m, after a split if the rest of the block is large enough. */
  ghost predicate SplitIfWorth(m: seq<Byte>, m': seq<Byte>, block: nat, n: nat) {
    && block + HEADER <= |m|
    && if U32(HeaderAt(m, block).size - n) > HEADER + MIN_BLOCK_SIZE then SplitOff(m, m', block, n) else m' == m
  }

  /** m' is m after the tail of `alloc_internal` on the header at `block`. */
  ghost predicate Finished(m: seq<Byte>, m': seq<Byte>, block: nat, n: nat) {
    && block + HEADER <= |m|
    && exists m1: seq<Byte> :: SplitIfWorth(m, m1, block, n) && Marked(m1, m', block, true)
  }

  /** The headers that the tail of `alloc_internal` touches lie in memory. */
  ghost predicate CanFinish(m: seq<Byte>, block: nat, n: nat) {
    && |m| <= WORD && block + HEADER <= |m|
    && var h := HeaderAt(m, block);
    && (U32(h.size - n) > HEADER + MIN_BLOCK_SIZE ==> block + HEADER + n + HEADER <= |m|)
    && (h.next != 0 ==> h.next + HEADER <= |m|)
  }

  /** m' is m after the tail of `alloc_internal`, whatever the next link points at. */
  ghost predicate FinishedSteps(m: seq<Byte>, m': seq<Byte>, block: nat, n: nat) {
    && block + HEADER <= |m|
    && exists m1: seq<Byte> ::
         && (if U32(HeaderAt(m, block).size - n) > HEADER + MIN_BLOCK_SIZE
             then SplitSteps(m, m1, block, n) else m1 == m)
         && Marked(m1, m', block, true)
  }

  lemma StepsFinished(m: seq<Byte>, m': seq<Byte>, block: nat, n: nat)
    requires FinishedSteps(m, m', block, n) && NextApart(m, block)
    ensures Finished(m, m', block, n)
  {
    hide HeaderAt, SplitSteps, SplitOff, Marked, NextApart;
    var m1: seq<Byte> :|
      && (if U32(HeaderAt(m, block).size - n) > HEADER + MIN_BLOCK_SIZE then SplitSteps(m, m1, block, n) else m1 == m)
      && Marked(m1, m', block, true);
    if U32(HeaderAt(m, block).size - n) > HEADER + MIN_BLOCK_SIZE {
      StepsSplitOff(m, m1, block, n);
    }
    assert SplitIfWorth(m, m1, block, n);
  }

  lemma StepsFrame(m: seq<Byte>, m': seq<Byte>, block: nat, n: nat, a: nat)
    requires FinishedSteps(m, m', block, n) && a + HEADER <= block && |m'| == |m|
    requires HeaderAt(m, block).next != 0 ==> Apart(a, HeaderAt(m, block).next)
    ensures HeaderAt(m', a) == HeaderAt(m, a)
  {
    hide HeaderAt, Word;
    var next, rest := HeaderAt(m, block).next, block + HEADER + n;
    var m1: seq<Byte> :|
      && (if U32(HeaderAt(m, block).size - n) > HEADER + MIN_BLOCK_SIZE then SplitSteps(m, m1, block, n) else m1 == m)
      && Marked(m1, m', block, true);
    if U32(HeaderAt(m, block).size - n) > HEADER + MIN_BLOCK_SIZE {
      var m0: seq<Byte> :| LinkedBack(m, m0, block, rest) && SplitHere(m0, m1, block, n);
      HeaderSame(m, m0, a);
      HeaderFrame(m0, m1, block, rest, block, a);
    }
    HeaderFrame(m1, m', block, block, block, a);
  }

  lemma StepsMagic(m: seq<Byte>, m': seq<Byte>, block: nat, n: nat)
    requires FinishedSteps(m, m', block, n)
    ensures block + HEADER <= |m'| && HeaderAt(m', block).magic == MAGIC + 1
  {
    hide HeaderAt, SplitSteps;
  }

  /** The tail of `alloc_internal` (kernel/kmalloc.cpp:161-165): cut off what the block
      does not need, if that is worth a header of its own, and mark the block used. */
  method Finish(mem: array<Byte>, block: nat, n: nat)
    requires CanFinish(mem[..], block, n)
    modifies mem
    ensures FinishedSteps(old(mem[..]), mem[..], block, n)
    ensures old(NextApart(mem[..], block)) ==> Finished(old(mem[..]), mem[..], block, n)
  {
    hide HeaderAt, SplitOff, Marked, SplitSteps, Finished, NextApart;
    ghost var m := mem[..];
    if U32(HeaderAt(mem[..], block).size - n) > HEADER + MIN_BLOCK_SIZE {
      CreateNewBlockHeader(mem, block, n);
    }
    Mark(mem, block, true);
    if NextApart(m, block) {
      StepsFinished(m, mem[..], block, n);
    }
  }

  /** The tail of `alloc_internal` leaves a header in front of the block alone. */
  lemma FinishFrame(m: seq<Byte>, m': seq<Byte>, block: nat, n: nat, a: nat)
    requires Finished(m, m', block, n) && a + HEADER <= block && |m'| == |m|
    requires HeaderAt(m, block).next != 0 ==> Apart(a, HeaderAt(m, block).next)
    ensures HeaderAt(m', a) == HeaderAt(m, a)
  {
    hide HeaderAt;
    var m1: seq<Byte> :| SplitIfWorth(m, m1, block, n) && Marked(m1, m', block, true);
    if U32(HeaderAt(m, block).size - n) > HEADER + MIN_BLOCK_SIZE {
      var next := HeaderAt(m, block).next;
      HeaderFrame(m, m1, block, block + HEADER + n, if next != 0 then next else block, a);
    }
    HeaderFrame(m1, m', block, block, block, a);
  }

  lemma FinishSplit(m: seq<Byte>, m': seq<Byte>, block: nat, n: nat)
    requires Finished(m, m', block, n) && |m'| == |m|
    requires U32(HeaderAt(m, block).size - n) > HEADER + MIN_BLOCK_SIZE
    ensures var h, rest := HeaderAt(m, block), block + HEADER + n;
            && rest + HEADER <= |m|
            && HeaderAt(m', block) == Header(MAGIC + 1, n, rest, h.previous)
            && HeaderAt(m', rest) == Header(MAGIC, U32(h.size - n - HEADER), h.next, block)
  {
    hide HeaderAt;
    var m1: seq<Byte> :| SplitIfWorth(m, m1, block, n) && Marked(m1, m', block, true);
    HeaderFrame(m1, m', block, block, block, block + HEADER + n);
  }

  lemma FinishPlain(m: seq<Byte>, m': seq<Byte>, block: nat, n: nat)
    requires Finished(m, m', block, n) && |m'| == |m|
    requires U32(HeaderAt(m, block).size - n) <= HEADER + MIN_BLOCK_SIZE
    ensures HeaderAt(m', block) == HeaderAt(m, block).(magic := MAGIC + 1) && OnlyAt(m, m', block, block, block)
  {
    hide HeaderAt;
  }

  lemma HandOutReady(m: seq<Byte>, bs: seq<Block>, k: nat, n: nat, start: nat, end: nat)
    requires 0 < start && end <= |m| <= WORD && Tiles(bs, start, end) && LayoutBut(m, bs, k)
    requires k < |bs| && n <= bs[k].size
    ensures bs[k].End() <= |m| && bs[k].addr + HEADER <= |m|
    ensures var b := bs[k].addr; var h := HeaderAt(m, b);
            && CanFinish(m, b, n)
            && (U32(h.size - n) > HEADER + MIN_BLOCK_SIZE <==> WorthSplitting(bs[k].size, n))
            && (WorthSplitting(bs[k].size, n) ==> b + HEADER + n + HEADER <= |m|)
            && NextApart(m, b) && (h.next != 0 ==> h.next + HEADER <= |m| && Apart(h.next, b))
  {
    hide HeaderAt;
    Bounds(bs, start, end);
    assert HeaderAt(m, bs[k].addr) == Expected(bs, k);
  }

  lemma LiveKept(m: seq<Byte>, m': seq<Byte>, bs: seq<Block>, r: seq<Block>, start: nat, end: nat)
    requires SamePayloads(m, m', r) && SameOutside(m, m', start, end)
    requires Live(bs) <= Live(r)
    ensures KeepsLive(m, m', Live(bs), start, end)
  {
  }

  lemma SplitHandOut(m: seq<Byte>, m': seq<Byte>, m'': seq<Byte>, bs: seq<Block>, k: nat, n: nat, start: nat, end: nat)
    requires 0 < start && end <= |m| <= WORD && Tiles(bs, start, end) && LayoutBut(m, bs, k)
    requires k < |bs| && !bs[k].used && WorthSplitting(bs[k].size, n)
    requires SplitOff(m, m', bs[k].addr, n) && Marked(m', m'', bs[k].addr, true)
    ensures Layout(m'', Split(bs, k, n)) && KeepsLive(m, m'', Live(bs), start, end)
  {
    hide HeaderAt, Payload, LayoutBut, SplitOff, Marked, Tiles;
    var r := Split(bs, k, n);
    SplitLifts(m, m', bs, k, n, start, end);
    SplitTiles(bs, k, n, start, end);
    LiveSplit(bs, k, n, start, end);
    LayoutIsLayoutBut(m', r, k);
    MarkLifts(m', m'', r, k, true, start, end);
    assert SetUsed(r, k, true) == r;
    assert bs[k] !in Live(bs);
    LiveKept(m, m'', bs, r, start, end);
  }

  lemma LayoutIsLayoutBut(m: seq<Byte>, bs: seq<Block>, k: nat)
    requires Layout(m, bs)
    ensures LayoutBut(m, bs, k)
  {
  }

  lemma PlainHandOut(m: seq<Byte>, m': seq<Byte>, bs: seq<Block>, k: nat, start: nat, end: nat)
    requires 0 < start && end <= |m| <= WORD && Tiles(bs, start, end) && LayoutBut(m, bs, k)
    requires k < |bs| && !bs[k].used && Marked(m, m', bs[k].addr, true)
    ensures LayoutBut(m', SetUsed(bs, k, true), k)
    ensures Layout(m, bs) || k + 1 == |bs| ==> Layout(m', SetUsed(bs, k, true))
    ensures k + 1 < |bs| ==> HeaderAt(m', bs[k + 1].addr) == HeaderAt(m, bs[k + 1].addr)
    ensures KeepsLive(m, m', Live(bs), start, end)
  {
    hide HeaderAt, Payload, Marked, Tiles, Expected;
    MarkLifts(m, m', bs, k, true, start, end);
    assert k + 1 == |bs| ==> Layout(m', SetUsed(bs, k, true));
    LiveKept(m, m', bs, bs, start, end);
  }

  lemma HandOutCases(m: seq<Byte>, m': seq<Byte>, m'': seq<Byte>, bs: seq<Block>, k: nat, n: nat, start: nat, end: nat)
    requires 0 < start && end <= |m| <= WORD && Tiles(bs, start, end) && LayoutBut(m, bs, k)
    requires k < |bs| && !bs[k].used && n <= bs[k].size
    requires SplitIfWorth(m, m', bs[k].addr, n) && Marked(m', m'', bs[k].addr, true)
    ensures HandedOut(m, m'', bs, k, n, start, end)
  {
    hide HeaderAt, Expected, Payload, Marked, SplitOff, Tiles, KeepsLive, Split, SetUsed;
    HandOutReady(m, bs, k, n, start, end);
    if WorthSplitting(bs[k].size, n) {
      SplitHandOut(m, m', m'', bs, k, n, start, end);
      LayoutIsLayoutBut(m'', Split(bs, k, n), k);
    } else {
      PlainHandOut(m, m'', bs, k, start, end);
    }
  }

  lemma HandOutLifts(m: seq<Byte>, m': seq<Byte>, bs: seq<Block>, k: nat, n: nat, start: nat, end: nat)
    requires 0 < start && end <= |m| <= WORD && Tiles(bs, start, end) && LayoutBut(m, bs, k)
    requires k < |bs| && !bs[k].used && n <= bs[k].size && Finished(m, m', bs[k].addr, n)
    ensures HandedOut(m, m', bs, k, n, start, end)
  {
    hide HeaderAt, SplitIfWorth, Marked, HandedOut, Tiles, LayoutBut;
    var m1: seq<Byte> :| SplitIfWorth(m, m1, bs[k].addr, n) && Marked(m1, m', bs[k].addr, true);
    HandOutCases(m, m1, m', bs, k, n, start, end);
  }

  /** After the block's used bit is cleared the list is intact and every other live payload kept. */
  lemma FreeMarked(m: seq<Byte>, m': seq<Byte>, bs: seq<Block>, k: nat, start: nat, end: nat)
    requires end <= |m| && Tiles(bs, start, end) && Layout(m, bs) && LayoutBut(m, bs, k) && k < |bs| && bs[k].used
    requires Marked(m, m', bs[k].addr, false)
    ensures var r := SetUsed(bs, k, false);
            && Tiles(r, start, end) && Layout(m', r) && Live(r) == Live(bs) - {bs[k]}
            && KeepsLive(m, m', Live(r), start, end)
  {
    hide HeaderAt, Payload, Marked, Expected;
    MarkLifts(m, m', bs, k, false, start, end);
    SetUsedTiles(bs, k, false, start, end);
    LiveReplace(bs, k, bs[k].(used := false), start, end);
    LiveKept(m, m', bs, bs, start, end);
  }

  /** Writing into the payload of block l leaves the list and every other payload alone. */
  lemma CopyLifts(m: seq<Byte>, m': seq<Byte>, bs: seq<Block>, l: nat, start: nat, end: nat)
    requires Tiles(bs, start, end) && Layout(m, bs) && end <= |m| && l < |bs| && |m'| == |m|
    requires forall x :: 0 <= x < |m| && (x < bs[l].Data() || bs[l].End() <= x) ==> m'[x] == m[x]
    ensures Layout(m', bs) && KeepsLive(m, m', Live(bs) - {bs[l]}, start, end)
  {
    hide HeaderAt, Expected;
    Bounds(bs, start, end);
    forall i | 0 <= i < |bs| ensures HeaderAt(m', bs[i].addr) == HeaderAt(m, bs[i].addr) {
      HeaderSame(m, m', bs[i].addr);
    }
    forall b | b in Live(bs) - {bs[l]} ensures b.End() <= |m| && Payload(m', b) == Payload(m, b) {
      PayloadsDisjoint(bs, start, end, b, bs[l]);
    }
  }

  /** A successor absorbed and the rest cut off again: block k has grown and every live
      payload, the grown block's old one included, is what it was. */
  lemma GrowLifts(m: seq<Byte>, m': seq<Byte>, m'': seq<Byte>, bs: seq<Block>, k: nat, n: nat, start: nat, end: nat)
    requires 0 < start && end <= |m| <= WORD && |m'| == |m| && Tiles(bs, start, end)
    requires k < |bs| && bs[k].used && CanGrow(bs, k, n) && bs[k].size < n && Layout(m', Merge(bs, k))
    requires SamePayloads(m, m', bs) && SameOutside(m, m', start, end)
    requires if WorthSplitting(Merge(bs, k)[k].size, n) then SplitOff(m', m'', bs[k].addr, n) else m'' == m'
    ensures Layout(m'', Grow(bs, k, n)) && KeepsLive(m, m'', Live(bs), start, end)
  {
    hide HeaderAt, Expected, Layout, SplitOff, LayoutBut;
    var merged := Merge(bs, k);
    assert KeepsLive(m, m', Live(bs), start, end);
    if WorthSplitting(merged[k].size, n) {
      MergeTiles(bs, k, start, end);
      LayoutIsLayoutBut(m', merged, k);
      var r := Split(merged, k, n);
      SplitLifts(m', m'', merged, k, n, start, end);
      GrownPayloads(m', m'', bs, k, n, start, end);
      forall b | b in Live(bs) ensures Payload(m'', b) == Payload(m, b) {
        assert Payload(m', b) == Payload(m, b);
      }
    }
  }

  lemma GrownPayloads(m: seq<Byte>, m': seq<Byte>, bs: seq<Block>, k: nat, n: nat, start: nat, end: nat)
    requires k < |bs| && bs[k].used && CanGrow(bs, k, n) && bs[k].size < n
    requires var merged := Merge(bs, k);
          && n + HEADER <= merged[k].size && SamePayloads(m, m', Split(merged, k, n))
    ensures forall b :: b in Live(bs) ==> b.End() <= |m| && Payload(m', b) == Payload(m, b)
  {
    var r := Split(Merge(bs, k), k, n);
    forall b | b in Live(bs) ensures b.End() <= |m| && Payload(m', b) == Payload(m, b) {
      var i :| 0 <= i < |bs| && bs[i] == b;
      if i == k {
        assert Payload(m', r[k])[..b.size] == Payload(m', b);
        assert Payload(m, r[k])[..b.size] == Payload(m, b);
      } else {
        assert i != k + 1;
        assert r[if i < k then i else i] == b;
      }
    }
  }
}
