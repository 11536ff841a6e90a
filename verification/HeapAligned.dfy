/** Page-aligned allocation (kernel/kmalloc.cpp:69-95, 106-131, 159-168), and exactly when
    it leaves a well-formed heap behind. */
module AlignedHeap {
  import opened Wrappers
  import opened Memory
  import opened HeapBlocks
  import opened HeapTheorems
  import opened HeapMemory
  import opened HeapHeaders
  import opened OverlappedHeap
  import opened KernelHeap

  const PAGE: nat := 0x1000

  predicate OnPage(a: nat) { a % PAGE == 0 }

  /** `get_distance_to_next_page`: a whole page when the address is aligned already. */
  function Distance(data: nat): (d: nat)
    ensures 0 < d <= PAGE && OnPage(data + d)
  {
    PAGE - data % PAGE
  }

  /** m0 is m after the three field writes of `make_aligned_block`. */
  ghost predicate Given(m: seq<Byte>, m0: seq<Byte>, block: nat) {
    && block + HEADER <= |m| == |m0|
    && var h, d := HeaderAt(m, block), Distance(block + HEADER);
    && h.previous + HEADER <= |m|
    && HeaderAt(m0, block) == h.(size := U32(h.size - d))
    && (var p := HeaderAt(m, h.previous);
        HeaderAt(m0, h.previous) == p.(next := block + d, size := U32(p.size + d)))
    && OnlyAt(m, m0, block, h.previous, block)
  }

  /** m' is m after `make_aligned_block`, whether or not the moved header overlaps the old. */
  ghost predicate Aligned(m: seq<Byte>, m': seq<Byte>, block: nat) {
    exists m0: seq<Byte> :: Given(m, m0, block) && MovedTo(m0, m', block, block + Distance(block + HEADER))
  }

  /** m' is m after the block at `block` gave its first bytes, up to the last header before
      the next page, to its predecessor. */
  ghost predicate Shifted(m: seq<Byte>, m': seq<Byte>, block: nat) {
    && block + HEADER <= |m| == |m'|
    && var h, d := HeaderAt(m, block), Distance(block + HEADER);
    && block + d + HEADER <= |m| && h.previous + HEADER <= |m|
    && HeaderAt(m', block + d) == h.(size := U32(h.size - d))
    && HeaderAt(m', block) == h.(size := U32(h.size - d))
    && (var p := HeaderAt(m, h.previous);
        HeaderAt(m', h.previous) == p.(next := block + d, size := U32(p.size + d)))
    && OnlyAt(m, m', block, h.previous, block + d)
  }

  lemma WordMoved(m: seq<Byte>, m': seq<Byte>, a: nat, b: nat, at: nat)
    requires a + HEADER <= |m| && b + HEADER <= |m'| && IsField(at)
    requires m'[b..b + HEADER] == m[a..a + HEADER]
    ensures Word(m', b + at) == Word(m, a + at)
  {
    var s := m[a..a + HEADER];
    assert forall i :: at <= i < at + 4 ==> s[i] == m[a + i];
    assert forall i :: at <= i < at + 4 ==> s[i] == m'[b + i];
  }

  lemma HeaderMoved(m: seq<Byte>, m': seq<Byte>, a: nat, b: nat)
    requires a + HEADER <= |m| && b + HEADER <= |m'|
    requires m'[b..b + HEADER] == m[a..a + HEADER]
    ensures HeaderAt(m', b) == HeaderAt(m, a)
  {
    hide Word;
    WordMoved(m, m', a, b, MAGIC_AT);
    WordMoved(m, m', a, b, SIZE_AT);
    WordMoved(m, m', a, b, NEXT_AT);
    WordMoved(m, m', a, b, PREVIOUS_AT);
  }

  lemma MovedIntact(m0: seq<Byte>, m1: seq<Byte>, block: nat, pos: nat)
    requires MovedTo(m0, m1, block, pos) && block + HEADER <= pos
    ensures OnlyAt(m0, m1, pos, pos, pos) && pos + HEADER <= |m1| && HeaderAt(m1, pos) == HeaderAt(m0, block)
  {
    hide HeaderAt;
    forall x {:trigger m1[x]} | pos <= x < pos + HEADER ensures m1[x] == m0[block + (x - pos)] {
      assert m1[pos + (x - pos)] == Copied(m0, pos, block, x - pos);
    }
    assert m1[pos..pos + HEADER] == m0[block..block + HEADER];
    HeaderMoved(m0, m1, block, pos);
  }

  /** A header moved by at least its own length arrives intact. */
  lemma AlignedShifted(m: seq<Byte>, m': seq<Byte>, block: nat)
    requires Aligned(m, m', block) && HEADER <= Distance(block + HEADER)
    requires block + HEADER <= |m| && var p := HeaderAt(m, block).previous; p + HEADER <= |m| && Apart(p, block)
    requires Apart(HeaderAt(m, block).previous, block + Distance(block + HEADER))
    ensures Shifted(m, m', block)
  {
    hide HeaderAt;
    var d := Distance(block + HEADER);
    var m0: seq<Byte> :| Given(m, m0, block) && MovedTo(m0, m', block, block + d);
    hide Distance;
    MovedIntact(m0, m', block, block + d);
    hide MovedTo;
    HeaderFrame(m0, m', block + d, block + d, block + d, block);
    HeaderFrame(m0, m', block + d, block + d, block + d, HeaderAt(m, block).previous);
  }

  /** The headers that `make_aligned_block` touches lie in memory. */
  ghost predicate CanAlign(m: seq<Byte>, block: nat) {
    && block + HEADER <= |m| <= WORD
    && var p, pos := HeaderAt(m, block).previous, block + Distance(block + HEADER);
    && p + HEADER <= |m| && pos + HEADER <= |m| && Apart(p, block)
  }

  /** `make_aligned_block` (kernel/kmalloc.cpp:77-95). */
  method MakeAlignedBlock(mem: array<Byte>, block: nat) returns (headerPos: nat)
    requires CanAlign(mem[..], block)
    modifies mem
    ensures headerPos == block + Distance(block + HEADER)
    ensures Aligned(old(mem[..]), mem[..], block)
  {
    hide HeaderAt, Distance, OnPage, NextPage, MovedTo;
    ghost var m := mem[..];
    var data := block + HEADER;
    var distance := Distance(data);
    headerPos := NextPage(data) - HEADER;
    GiveToPrevious(mem, block, distance, headerPos);
    ghost var m0 := mem[..];
    assert Given(m, m0, block);
    MoveHeader(mem, headerPos, block);
    assert MovedTo(m0, mem[..], block, headerPos);
  }

  /** `get_next_page` */
  function NextPage(data: nat): (a: nat)
    ensures a == data + Distance(data)
  {
    data - data % PAGE + PAGE
  }

  /** The three field writes of `make_aligned_block` (kernel/kmalloc.cpp:87-89). */
  method GiveToPrevious(mem: array<Byte>, block: nat, distance: nat, headerPos: nat)
    requires block + HEADER <= mem.Length && headerPos < WORD
    requires var p := HeaderAt(mem[..], block).previous; p + HEADER <= mem.Length && Apart(p, block)
    modifies mem
    ensures var h := old(HeaderAt(mem[..], block)); var p := old(HeaderAt(mem[..], h.previous));
            && HeaderAt(mem[..], block) == h.(size := U32(h.size - distance))
            && HeaderAt(mem[..], h.previous) == p.(next := headerPos, size := U32(p.size + distance))
            && OnlyAt(old(mem[..]), mem[..], block, h.previous, block)
  {
    hide HeaderAt;
    SetField(mem, block, SIZE_AT, U32(HeaderAt(mem[..], block).size - distance));
    var previous := HeaderAt(mem[..], block).previous;
    SetField(mem, previous, NEXT_AT, headerPos);
    SetField(mem, previous, SIZE_AT, U32(HeaderAt(mem[..], previous).size + distance));
  }

  /** The header copy at the end of `make_aligned_block`. */
  method MoveHeader(mem: array<Byte>, dst: nat, src: nat)
    requires dst + HEADER <= mem.Length && src + HEADER <= mem.Length
    modifies mem
    ensures MovedTo(old(mem[..]), mem[..], src, dst)
  {
    hide Copied;
    MemCopy(mem, dst, src, HEADER);
  }

  /** Byte i of the header moved d bytes ahead is the byte it was copied from. */
  predicate ByteIntact(m: seq<Byte>, block: nat, d: nat, i: nat)
    requires block + HEADER <= |m| && i < HEADER
  {
    Copied(m, block + d, block, i) == m[block + i]
  }

  ghost predicate Repeats(h: seq<Byte>, d: nat) {
    forall i, j {:trigger h[i], h[j]} :: 0 <= i && j == i + d && j < |h| ==> h[j] == h[i]
  }

  /** When the next page starts less than a header ahead, the forward copy runs over its own
      source: the moved header is the old one exactly when the old header repeats itself
      with the period of the shift. */
  lemma OverlappingMove(m: seq<Byte>, block: nat, d: nat)
    requires 0 < d < HEADER && block + HEADER <= |m|
    ensures (forall i: nat :: i < HEADER ==> ByteIntact(m, block, d, i)) <==> Repeats(m[block..block + HEADER], d)
  {
    var h := m[block..block + HEADER];
    if forall i: nat :: i < HEADER ==> ByteIntact(m, block, d, i) {
      forall i, j | 0 <= i && j == i + d && j < |h| ensures h[j] == h[i] {
        assert ByteIntact(m, block, d, i) && ByteIntact(m, block, d, j);
      }
    }
    if Repeats(h, d) {
      forall i: nat | i < HEADER ensures ByteIntact(m, block, d, i) {
        Periodic(h, d, i);
        assert h[Wrap(i, d)] == m[block + Wrap(i, d)];
      }
    }
  }

  lemma {:induction false} Periodic(h: seq<Byte>, d: nat, i: nat)
    requires 0 < d && i < |h| && Repeats(h, d)
    ensures h[Wrap(i, d)] == h[i]
  {
    if d <= i {
      Periodic(h, d, i - d);
      assert h[i] == h[i - d];
    }
  }

  // ---------- The list ----------

  /** Block k loses its first d bytes to its predecessor. */
  function Shift(bs: seq<Block>, k: nat, d: nat): (r: seq<Block>)
    requires 0 < k < |bs| && d <= bs[k].size
    ensures |r| == |bs| && r[k].End() == bs[k].End() && r[k].size == bs[k].size - d
  {
    bs[k - 1 := bs[k - 1].(size := bs[k - 1].size + d)]
      [k := Block(bs[k].addr + d, bs[k].size - d, bs[k].used)]
  }

  function ShiftOf(b: Block): nat { Distance(b.Data()) }

  lemma ShiftKeeps(bs: seq<Block>, k: nat, d: nat, start: nat, end: nat)
    requires HeapShape(bs, start, end) && 0 < k < |bs| && d <= bs[k].size && !bs[k].used
    ensures HeapShape(Shift(bs, k, d), start, end)
    ensures bs[k - 1].used
    ensures Live(Shift(bs, k, d)) == Live(bs) - {bs[k - 1]} + {bs[k - 1].(size := bs[k - 1].size + d)}
  {
    var grown := bs[k - 1].(size := bs[k - 1].size + d);
    var middle := bs[k - 1 := grown];
    var r := Shift(bs, k, d);
    LiveReplace(bs, k - 1, grown, start, end);
    assert forall i :: 0 <= i < |bs| && i != k ==> r[i] == middle[i];
    forall b | b in Live(r) ensures b in Live(middle) {
      var i :| 0 <= i < |r| && r[i] == b;
      assert middle[i] == b;
    }
    forall b | b in Live(middle) ensures b in Live(r) {
      var i :| 0 <= i < |middle| && middle[i] == b;
      assert r[i] == b;
    }
  }

  lemma ShiftExpected(bs: seq<Block>, k: nat, d: nat, i: nat)
    requires 0 < k < |bs| && d <= bs[k].size && i < |bs|
    ensures var r := Shift(bs, k, d);
            && |r| == |bs|
            && Expected(r, i) ==
                 if i == k - 1 then Expected(bs, i).(next := bs[k].addr + d, size := bs[i].size + d)
                 else if i == k then Expected(bs, k).(size := bs[k].size - d)
                 else if i == k + 1 then Expected(bs, i).(previous := bs[k].addr + d)
                 else Expected(bs, i)
  {
  }

  lemma ShiftFrame(m: seq<Byte>, m': seq<Byte>, bs: seq<Block>, k: nat, d: nat, start: nat, end: nat)
    requires HeapShape(bs, start, end) && Layout(m, bs) && end <= |m| && 0 < k < |bs| && !bs[k].used
    requires HEADER <= d <= bs[k].size && OnlyAt(m, m', bs[k].addr, bs[k - 1].addr, bs[k].addr + d)
    ensures forall i {:trigger HeaderAt(m', bs[i].addr)} :: 0 <= i < |bs| && i != k - 1 && i != k ==>
              HeaderAt(m', bs[i].addr) == HeaderAt(m, bs[i].addr)
    ensures KeepsLive(m, m', Live(bs), start, end)
  {
    hide HeaderAt, Payload, Expected;
    Bounds(bs, start, end);
    forall i | 0 <= i < |bs| && i != k - 1 && i != k
      ensures HeaderAt(m', bs[i].addr) == HeaderAt(m, bs[i].addr)
    {
      HeaderFrame(m, m', bs[k].addr, bs[k - 1].addr, bs[k].addr + d, bs[i].addr);
    }
    forall b | b in Live(bs) ensures b.End() <= |m| && Payload(m', b) == Payload(m, b) {
      PayloadFrame(m, m', bs[k].addr, bs[k - 1].addr, bs[k].addr + d, b);
    }
  }

  /** `make_aligned_block` moves block k's first bytes to its predecessor; only the back
      link of the block after k is left standing at the old header. */
  lemma ShiftLifts(m: seq<Byte>, m': seq<Byte>, bs: seq<Block>, k: nat, start: nat, end: nat)
    requires 0 < start && HeapShape(bs, start, end) && Layout(m, bs) && end <= |m| <= WORD
    requires 0 < k < |bs| && !bs[k].used && HEADER <= ShiftOf(bs[k]) <= bs[k].size
    requires Shifted(m, m', bs[k].addr)
    ensures var r := Shift(bs, k, ShiftOf(bs[k]));
            && LayoutBut(m', r, k)
            && (k + 1 < |bs| ==> StaleLink(m', r, k, bs[k].addr))
            && KeepsLive(m, m', Live(bs), start, end)
  {
    hide HeaderAt, Payload;
    var d := ShiftOf(bs[k]);
    var r := Shift(bs, k, d);
    Bounds(bs, start, end);
    assert HeaderAt(m, bs[k].addr) == Expected(bs, k);
    assert HeaderAt(m, bs[k - 1].addr) == Expected(bs, k - 1);
    assert HeaderAt(m', bs[k].addr + d) == Expected(bs, k).(size := bs[k].size - d);
    assert HeaderAt(m', bs[k - 1].addr) == Expected(bs, k - 1).(next := bs[k].addr + d, size := bs[k - 1].size + d);
    hide *;
    ShiftFrame(m, m', bs, k, d, start, end);
    ShiftHeaders(m, m', bs, k, d, start, end);
  }

  /** The block after block k still points back at the old header. */
  ghost predicate StaleLink(m: seq<Byte>, r: seq<Block>, k: nat, stale: nat) {
    k + 1 < |r| && r[k + 1].End() <= |m| && HeaderAt(m, r[k + 1].addr).previous == stale
  }

  lemma ShiftHeaders(m: seq<Byte>, m': seq<Byte>, bs: seq<Block>, k: nat, d: nat, start: nat, end: nat)
    requires Tiles(bs, start, end) && Layout(m, bs) && end <= |m| == |m'| && 0 < k < |bs| && d <= bs[k].size
    requires bs[k].addr + d + HEADER <= |m|
    requires HeaderAt(m', bs[k].addr + d) == Expected(bs, k).(size := bs[k].size - d)
    requires HeaderAt(m', bs[k - 1].addr)
          == Expected(bs, k - 1).(next := bs[k].addr + d, size := bs[k - 1].size + d)
    requires forall i {:trigger HeaderAt(m', bs[i].addr)} :: 0 <= i < |bs| && i != k - 1 && i != k ==>
               HeaderAt(m', bs[i].addr) == HeaderAt(m, bs[i].addr)
    ensures LayoutBut(m', Shift(bs, k, d), k)
    ensures k + 1 < |bs| ==> StaleLink(m', Shift(bs, k, d), k, bs[k].addr)
  {
    hide HeaderAt, Expected;
    var r := Shift(bs, k, d);
    assert InMemory(m', r) by {
      forall i | 0 <= i < |r| ensures r[i].End() <= |m'| {
        assert bs[i].End() <= |m|;
      }
    }
    forall i | 0 <= i < |r| && i != k + 1 ensures HeaderAt(m', r[i].addr) == Expected(r, i) {
      ShiftExpected(bs, k, d, i);
      assert i != k ==> r[i].addr == bs[i].addr;
    }
    if k + 1 < |bs| {
      ShiftExpected(bs, k, d, k + 1);
      assert r[k + 1] == bs[k + 1];
      assert HeaderAt(m', bs[k + 1].addr) == Expected(bs, k + 1);
      ExpectedPrevious(bs, k);
    }
  }

  lemma ExpectedPrevious(bs: seq<Block>, k: nat)
    requires k + 1 < |bs|
    ensures Expected(bs, k + 1).previous == bs[k].addr
  {
  }

  // ---------- When the heap survives ----------

  /** The condition under which a page-aligned allocation from block k keeps the heap:
      there is a predecessor to take the skipped bytes, the header moves by at least its own
      length, the block still holds n bytes after the shift, and the block after it gets its
      back link repaired by a split or does not exist. */
  predicate AlignedOk(bs: seq<Block>, k: nat, n: nat)
    requires k < |bs|
  {
    var d := ShiftOf(bs[k]);
    && 0 < k && HEADER <= d && n + d <= bs[k].size
    && (k + 1 == |bs| || WorthSplitting(bs[k].size - d, n))
  }

  function AlignedResult(bs: seq<Block>, k: nat, n: nat): seq<Block>
    requires k < |bs| && AlignedOk(bs, k, n)
  {
    Take(Shift(bs, k, ShiftOf(bs[k])), k, n)
  }

  /** On the list, a successful page-aligned allocation keeps the heap well formed and
      conserves its bytes; the predecessor grows by the skipped bytes and one live block,
      of at least n bytes and on a page boundary, is added. */
  lemma {:induction false} AlignedKeeps(bs: seq<Block>, k: nat, n: nat, start: nat, end: nat) returns (b: Block)
    requires HeapShape(bs, start, end) && k < |bs| && !bs[k].used && AlignedOk(bs, k, n)
    ensures var r := AlignedResult(bs, k, n); var d := ShiftOf(bs[k]);
            && HeapShape(r, start, end) && Sizes(r) == Sizes(bs)
            && b.used && n <= b.size && b.Data() == bs[k].Data() + d && OnPage(b.Data())
            && Live(r) == Live(bs) - {bs[k - 1]} + {bs[k - 1].(size := bs[k - 1].size + d)} + {b}
  {
    var d := ShiftOf(bs[k]);
    var r := Shift(bs, k, d);
    ShiftKeeps(bs, k, d, start, end);
    TakeKeeps(r, k, n, start, end);
    TotalConserved(bs, start, end);
    TotalConserved(Take(r, k, n), start, end);
    b := Block(r[k].addr, if WorthSplitting(r[k].size, n) then n else r[k].size, true);
  }

  lemma GrownPrevious(m: seq<Byte>, m1: seq<Byte>, m2: seq<Byte>, bs: seq<Block>, k: nat, d: nat, start: nat, end: nat)
    requires HeapShape(bs, start, end) && 0 < k < |bs| && d <= bs[k].size && !bs[k].used
    requires KeepsLive(m, m1, Live(bs), start, end) && KeepsLive(m1, m2, Live(Shift(bs, k, d)), start, end)
    ensures KeepsLive(m, m2, Live(bs), start, end)
  {
    ShiftKeeps(bs, k, d, start, end);
    var p := bs[k - 1];
    var grown := p.(size := p.size + d);
    var rest := Live(bs) - {p};
    assert p in Live(bs) && grown in Live(Shift(bs, k, d));
    hide Live, HeapShape, Shift;
    KeepsLess(m, m1, Live(bs), rest, start, end);
    KeepsLess(m1, m2, Live(Shift(bs, k, d)), rest, start, end);
    KeepsThen(m, m1, m2, rest, start, end);
    KeptPrefix(m, m1, Live(bs), p, p.size, start, end);
    KeptPrefix(m1, m2, Live(Shift(bs, k, d)), grown, p.size, start, end);
    assert Payload(m2, p) == Payload(m, p);
  }

  /** Where the shift fits, the call hands out block k of the shifted list; only the back
      link of the block behind it may be wrong. */
  lemma ShiftedHandOut(m: seq<Byte>, m1: seq<Byte>, m2: seq<Byte>, bs: seq<Block>, k: nat, n: nat, start: nat, end: nat)
    requires 0 < start && HeapShape(bs, start, end) && Layout(m, bs) && end <= |m| <= WORD
    requires 0 < k < |bs| && !bs[k].used && HEADER <= ShiftOf(bs[k]) && n + ShiftOf(bs[k]) <= bs[k].size
    requires Shifted(m, m1, bs[k].addr) && Finished(m1, m2, bs[k].addr + ShiftOf(bs[k]), n)
    ensures var r := Shift(bs, k, ShiftOf(bs[k]));
            && HandedOut(m1, m2, r, k, n, start, end) && KeepsLive(m, m2, Live(bs), start, end)
            && (k + 1 < |bs| ==> StaleLink(m1, r, k, bs[k].addr))
  {
    hide HeaderAt, Finished, Shifted, Layout, Shift, KeepsLive, LayoutBut, Live, Distance, StaleLink, Take;
    var d := ShiftOf(bs[k]);
    var r := Shift(bs, k, d);
    ShiftLifts(m, m1, bs, k, start, end);
    ShiftKeeps(bs, k, d, start, end);
    ShiftedBlock(m, m1, bs, k, d);
    HandOutLifts(m1, m2, r, k, n, start, end);
    ShiftedMemory(m1, r, k);
    assert KeepsLive(m1, m2, Live(r), start, end);
    GrownPrevious(m, m1, m2, bs, k, d, start, end);
  }

  lemma ShiftedBlock(m: seq<Byte>, m1: seq<Byte>, bs: seq<Block>, k: nat, d: nat)
    requires 0 < k < |bs| && d <= bs[k].size && Shifted(m, m1, bs[k].addr)
    ensures |m1| == |m| && Shift(bs, k, d)[k] == Block(bs[k].addr + d, bs[k].size - d, bs[k].used)
  {
    hide HeaderAt;
  }

  lemma ShiftedMemory(m: seq<Byte>, bs: seq<Block>, k: nat)
    requires LayoutBut(m, bs, k)
    ensures InMemory(m, bs)
  {
  }

  /** With a predecessor and room, the heap survives exactly when the block is last or split. */
  lemma ShiftedOutcome(m: seq<Byte>, m1: seq<Byte>, m2: seq<Byte>, bs: seq<Block>, k: nat, n: nat, start: nat, end: nat)
    requires 0 < start && HeapShape(bs, start, end) && Layout(m, bs) && end <= |m| <= WORD
    requires 0 < k < |bs| && !bs[k].used && HEADER <= ShiftOf(bs[k]) && n + ShiftOf(bs[k]) <= bs[k].size
    requires Shifted(m, m1, bs[k].addr) && Finished(m1, m2, bs[k].addr + ShiftOf(bs[k]), n)
    ensures AlignedOk(bs, k, n) ==> Layout(m2, AlignedResult(bs, k, n)) && KeepsLive(m, m2, Live(bs), start, end)
    ensures !AlignedOk(bs, k, n) ==> !HoldsHeap(m2, start, end)
  {
    hide HeaderAt, Finished, Shifted;
    ShiftedHandOut(m, m1, m2, bs, k, n, start, end);
    if !AlignedOk(bs, k, n) {
      var d := ShiftOf(bs[k]);
      ShiftKeeps(bs, k, d, start, end);
      BrokenLink(m2, Shift(bs, k, d), k, bs[k].addr, start, end);
    }
  }

  lemma BackLink(m: seq<Byte>, bs: seq<Block>, k: nat)
    requires Layout(m, bs) && k + 1 < |bs|
    ensures bs[k + 1].End() <= |m| && HeaderAt(m, bs[k + 1].addr).previous == bs[k].addr
  {
  }

  lemma BrokenLink(m: seq<Byte>, r: seq<Block>, k: nat, stale: nat, start: nat, end: nat)
    requires 0 < start && Tiles(r, start, end) && k + 1 < |r| && stale != r[k].addr
    requires LayoutBut(m, SetUsed(r, k, true), k)
    requires StaleLink(m, r, k, stale)
    ensures !HoldsHeap(m, start, end)
  {
    hide HeaderAt;
    var t := SetUsed(r, k, true);
    SetUsedTiles(r, k, true, start, end);
    if HoldsHeap(m, start, end) {
      var cs: seq<Block> :| Tiles(cs, start, end) && Layout(m, cs);
      ForwardUnique(m, t, cs, start, end);
      BackLink(m, cs, k);
      assert false;
    }
  }

  /** Without a predecessor the skipped bytes are lost: the first header keeps its place
      with a size that no longer reaches the next one. */
  lemma NoPredecessor(m: seq<Byte>, m1: seq<Byte>, m2: seq<Byte>, bs: seq<Block>, n: nat, start: nat, end: nat)
    requires 0 < start && HeapShape(bs, start, end) && Layout(m, bs) && end <= |m| == |m2| <= WORD
    requires !bs[0].used && HEADER <= ShiftOf(bs[0])
    requires Shifted(m, m1, start) && FinishedSteps(m1, m2, start + ShiftOf(bs[0]), n)
    ensures !HoldsHeap(m2, start, end)
  {
    hide HeaderAt, FinishedSteps;
    var d := ShiftOf(bs[0]);
    assert HeaderAt(m, bs[0].addr) == Expected(bs, 0);
    Bounds(bs, start, end);
    assert HeaderAt(m1, start) == Expected(bs, 0).(size := U32(bs[0].size - d));
    assert HeaderAt(m1, start + d).next == NextOf(bs, 0);
    StepsFrame(m1, m2, start + d, n, start);
    ShiftedSize(bs[0].size, d);
    OtherSize(m2, bs, U32(bs[0].size - d), start, end);
  }

  lemma OtherSize(m: seq<Byte>, bs: seq<Block>, size: nat, start: nat, end: nat)
    requires 0 < start && Tiles(bs, start, end) && start + HEADER <= |m|
    requires HeaderAt(m, start) == Expected(bs, 0).(size := size) && size != bs[0].size
    ensures !HoldsHeap(m, start, end)
  {
    hide HeaderAt, Expected;
    if HoldsHeap(m, start, end) {
      var cs: seq<Block> :| Tiles(cs, start, end) && Layout(m, cs);
      assert HeaderAt(m, cs[0].addr) == Expected(cs, 0);
      FirstBlockSize(bs, cs, size, start, end);
    }
  }

  /** A first header can only keep its links if it keeps its size. */
  lemma FirstBlockSize(bs: seq<Block>, cs: seq<Block>, size: nat, start: nat, end: nat)
    requires 0 < start && Tiles(bs, start, end) && Tiles(cs, start, end)
    requires Expected(cs, 0) == Expected(bs, 0).(size := size)
    ensures size == bs[0].size
  {
    assert NextOf(cs, 0) == NextOf(bs, 0) && cs[0].size == size;
  }

  lemma ShiftedSize(size: nat, d: nat)
    requires size < WORD && 0 < d <= PAGE
    ensures U32(size - d) == (if d <= size then size - d else WORD + size - d) != size
  {
  }

  /** The chain that an underflowing split leaves behind: it runs up to a header whose
      size wrapped around. */
  ghost function Overrun(bs: seq<Block>, k: nat, n: nat): seq<Block>
    requires 0 < k < |bs| && bs[k].size < n + ShiftOf(bs[k]) && n + ShiftOf(bs[k]) + HEADER < WORD
  {
    var d := ShiftOf(bs[k]);
    var pos := bs[k].addr + d;
    bs[..k - 1] + [bs[k - 1].(size := bs[k - 1].size + d), Block(pos, n, true),
                   Block(pos + HEADER + n, WORD + bs[k].size - d - n - HEADER, false)]
  }

  /** A list that follows the overrunning chain would reach past the end of the region. */
  lemma OverrunEnds(m: seq<Byte>, bs: seq<Block>, k: nat, n: nat, start: nat, end: nat)
    requires 0 < start && Tiles(bs, start, end) && end <= WORD
    requires 0 < k < |bs| && bs[k].size < n + ShiftOf(bs[k]) && n + ShiftOf(bs[k]) + HEADER < WORD
    requires Chain(m, Overrun(bs, k, n))
    ensures !HoldsHeap(m, start, end)
  {
    hide HeaderAt, Chain;
    var ds := Overrun(bs, k, n);
    assert ds[0].addr == start && |ds| == k + 2;
    assert ds[k + 1].End() > WORD;
    if HoldsHeap(m, start, end) {
      var cs: seq<Block> :| Tiles(cs, start, end) && Layout(m, cs);
      ChainSame(m, ds, cs, start, end, k + 1);
      Bounds(cs, start, end);
      assert false;
    }
  }

  /** When the block is too small after the shift, the unsigned remainder wraps around and
      the block is split behind its own end. */
  lemma TooSmall(m: seq<Byte>, m1: seq<Byte>, m2: seq<Byte>, bs: seq<Block>, k: nat, n: nat, start: nat, end: nat)
    requires 0 < start && HeapShape(bs, start, end) && Layout(m, bs) && end <= |m| == |m2| <= WORD
    requires 0 < k < |bs| && !bs[k].used && HEADER <= ShiftOf(bs[k]) && bs[k].size < n + ShiftOf(bs[k])
    requires ShiftClear(bs, k) && n < bs[k].size + PAGE && end + 3 * PAGE <= WORD
    requires Shifted(m, m1, bs[k].addr) && Finished(m1, m2, bs[k].addr + ShiftOf(bs[k]), n)
    ensures !HoldsHeap(m2, start, end)
  {
    hide HeaderAt, Finished;
    var d := ShiftOf(bs[k]);
    assert |m1| == |m|;
    ShiftedPrefix(m, m1, bs, k, start, end);
    ClearNext(bs, k, start, end);
    Bounds(bs, start, end);
    assert forall i :: 0 <= i < |bs| ==> 0 < bs[i].addr;
    hide Shifted, Layout, Distance, Tiles, Expected, ShiftClear;
    assert 0 < d <= PAGE;
    FinishOverrun(m1, m2, bs, k, n, d, start, end);
    OverrunChain(m, m1, m2, bs, k, n);
    OverrunEnds(m2, bs, k, n, start, end);
  }

  lemma ClearNext(bs: seq<Block>, k: nat, start: nat, end: nat)
    requires Tiles(bs, start, end) && k < |bs| && ShiftClear(bs, k)
    ensures NextOf(bs, k) != 0 ==> Apart(NextOf(bs, k), bs[k].addr + ShiftOf(bs[k]))
  {
    Bounds(bs, start, end);
  }

  /** The headers in front of the moved one. */
  lemma ShiftedPrefix(m: seq<Byte>, m1: seq<Byte>, bs: seq<Block>, k: nat, start: nat, end: nat)
    requires 0 < start && HeapShape(bs, start, end) && Layout(m, bs) && end <= |m| <= WORD && end + 3 * PAGE <= WORD
    requires 0 < k < |bs| && !bs[k].used && HEADER <= ShiftOf(bs[k])
    requires Shifted(m, m1, bs[k].addr)
    ensures InMemory(m, bs) && |m1| == |m|
    ensures var d := ShiftOf(bs[k]); var pos := bs[k].addr + d;
            && pos + HEADER <= |m1|
            && HeaderAt(m1, pos) == Expected(bs, k).(size := U32(bs[k].size - d))
            && HeaderAt(m1, bs[k - 1].addr) == Expected(bs, k - 1).(next := pos, size := bs[k - 1].size + d)
    ensures forall i {:trigger HeaderAt(m1, bs[i].addr)} :: 0 <= i < k - 1 ==>
              HeaderAt(m1, bs[i].addr) == HeaderAt(m, bs[i].addr)
  {
    hide HeaderAt;
    var d := ShiftOf(bs[k]);
    var pos := bs[k].addr + d;
    Bounds(bs, start, end);
    assert HeaderAt(m, bs[k].addr) == Expected(bs, k);
    assert HeaderAt(m, bs[k - 1].addr) == Expected(bs, k - 1);
    PrefixFrame(m, m1, bs, k, pos, start, end);
  }

  lemma PrefixFrame(m: seq<Byte>, m1: seq<Byte>, bs: seq<Block>, k: nat, pos: nat, start: nat, end: nat)
    requires Tiles(bs, start, end) && end <= |m| && 0 < k < |bs| && bs[k].addr <= pos
    requires OnlyAt(m, m1, bs[k].addr, bs[k - 1].addr, pos)
    ensures forall i {:trigger HeaderAt(m1, bs[i].addr)} :: 0 <= i < k - 1 ==>
              bs[i].End() <= |m| && HeaderAt(m1, bs[i].addr) == HeaderAt(m, bs[i].addr)
  {
    hide HeaderAt;
    Bounds(bs, start, end);
    hide OnlyAt;
    forall i | 0 <= i < k - 1 ensures HeaderAt(m1, bs[i].addr) == HeaderAt(m, bs[i].addr) {
      HeaderFrame(m, m1, bs[k].addr, bs[k - 1].addr, pos, bs[i].addr);
    }
  }

  lemma FinishOverrun(m1: seq<Byte>, m2: seq<Byte>, bs: seq<Block>, k: nat, n: nat, d: nat, start: nat, end: nat)
    requires Tiles(bs, start, end) && InMemory(m1, bs) && |m1| == |m2| && 0 < k < |bs|
    requires 0 < d <= PAGE && bs[k].size < n + d && n < bs[k].size + PAGE && bs[k].size + 3 * PAGE < WORD
    requires var pos := bs[k].addr + d;
          && pos + HEADER <= |m1| && Finished(m1, m2, pos, n)
          && HeaderAt(m1, pos) == Expected(bs, k).(size := U32(bs[k].size - d))
          && (NextOf(bs, k) != 0 ==> Apart(NextOf(bs, k), pos))
    ensures var pos := bs[k].addr + d; var h := HeaderAt(m2, pos);
            && h.magic == MAGIC + 1 && h.size == n && h.next == pos + HEADER + n && pos + HEADER + n + HEADER <= |m2|
            && (var x := HeaderAt(m2, pos + HEADER + n);
                x.magic == MAGIC && x.size == WORD + bs[k].size - d - n - HEADER)
    ensures forall i {:trigger HeaderAt(m2, bs[i].addr)} :: 0 <= i < k ==>
              HeaderAt(m2, bs[i].addr) == HeaderAt(m1, bs[i].addr)
  {
    hide HeaderAt, Finished;
    var pos := bs[k].addr + d;
    Bounds(bs, start, end);
    Underflow(bs[k].size, d, n);
    FinishSplit(m1, m2, pos, n);
    forall i | 0 <= i < k ensures HeaderAt(m2, bs[i].addr) == HeaderAt(m1, bs[i].addr) {
      FinishFrame(m1, m2, pos, n, bs[i].addr);
    }
  }

  lemma Underflow(size: nat, d: nat, n: nat)
    requires 0 < d <= PAGE && size < n + d && n < size + PAGE && size + 3 * PAGE < WORD
    ensures U32(U32(size - d) - n) > HEADER + MIN_BLOCK_SIZE
    ensures U32(U32(size - d) - n - HEADER) == WORD + size - d - n - HEADER
  {
    ShiftedSize(size, d);
  }

  lemma OverrunChain(m: seq<Byte>, m1: seq<Byte>, m2: seq<Byte>, bs: seq<Block>, k: nat, n: nat)
    requires Layout(m, bs) && |m1| == |m| == |m2| && (forall i :: 0 <= i < |bs| ==> 0 < bs[i].addr)
    requires 0 < k < |bs| && bs[k].size < n + ShiftOf(bs[k]) && n + ShiftOf(bs[k]) + HEADER < WORD
    requires var d := ShiftOf(bs[k]); var pos := bs[k].addr + d;
          && pos + HEADER + n + HEADER <= |m2|
          && HeaderAt(m2, bs[k - 1].addr) == Expected(bs, k - 1).(next := pos, size := bs[k - 1].size + d)
          && (var h := HeaderAt(m2, pos); h.magic == MAGIC + 1 && h.size == n && h.next == pos + HEADER + n)
          && (var h := HeaderAt(m2, pos + HEADER + n);
              h.magic == MAGIC && h.size == WORD + bs[k].size - d - n - HEADER)
    requires forall i {:trigger HeaderAt(m1, bs[i].addr)} :: 0 <= i < k - 1 ==>
               HeaderAt(m1, bs[i].addr) == HeaderAt(m, bs[i].addr)
    requires forall i {:trigger HeaderAt(m2, bs[i].addr)} :: 0 <= i < k ==>
               HeaderAt(m2, bs[i].addr) == HeaderAt(m1, bs[i].addr)
    ensures Chain(m2, Overrun(bs, k, n))
  {
    hide HeaderAt, Distance;
    var ds := Overrun(bs, k, n);
    forall i | 0 <= i < |ds|
      ensures ds[i].Data() <= |m2|
      ensures HeaderAt(m2, ds[i].addr).magic == MagicOf(ds[i].used) && HeaderAt(m2, ds[i].addr).size == ds[i].size
      ensures i + 1 < |ds| ==> HeaderAt(m2, ds[i].addr).next == NextOf(ds, i) > 0
    {
      if i < k - 1 {
        assert ds[i] == bs[i] && NextOf(ds, i) == bs[i + 1].addr;
        assert HeaderAt(m2, bs[i].addr) == HeaderAt(m1, bs[i].addr) == HeaderAt(m, bs[i].addr) == Expected(bs, i);
      }
    }
  }

  // ---------- A header moved onto itself ----------

  lemma GrownHeader(m: seq<Byte>, m0: seq<Byte>, bs: seq<Block>, k: nat, d: nat, start: nat, end: nat)
    requires KernelRegion(m, start, end) && Tiles(bs, start, end) && Layout(m, bs)
    requires 0 < k < |bs| && d == ShiftOf(bs[k]) && Given(m, m0, bs[k].addr)
    ensures OnlyAt(m, m0, bs[k].addr, bs[k - 1].addr, bs[k].addr) && bs[k - 1].End() <= |m0|
    ensures HeaderAt(m0, bs[k - 1].addr) == Expected(bs, k - 1).(next := bs[k].addr + d, size := bs[k - 1].size + d)
  {
    hide HeaderAt, Distance;
    Bounds(bs, start, end);
    assert HeaderAt(m, bs[k].addr) == Expected(bs, k);
    assert HeaderAt(m, bs[k - 1].addr) == Expected(bs, k - 1);
  }

  lemma PrefixHeaders(m: seq<Byte>, m0: seq<Byte>, m1: seq<Byte>, bs: seq<Block>, k: nat, d: nat, start: nat, end: nat)
    requires KernelRegion(m, start, end) && Tiles(bs, start, end) && Layout(m, bs)
    requires 0 < k < |bs| && d == ShiftOf(bs[k])
    requires Given(m, m0, bs[k].addr) && MovedTo(m0, m1, bs[k].addr, bs[k].addr + d)
    ensures |m1| == |m|
    ensures forall i {:trigger HeaderAt(m1, bs[i].addr)} :: 0 <= i < k ==>
              bs[i].End() <= |m|
              && HeaderAt(m1, bs[i].addr)
                 == if i + 1 < k then Expected(bs, i)
                    else Expected(bs, i).(next := bs[k].addr + d, size := bs[i].size + d)
  {
    hide HeaderAt, Distance, Copied, Expected;
    var pos := bs[k].addr + d;
    GrownHeader(m, m0, bs, k, d, start, end);
    PrefixFrame(m, m0, bs, k, bs[k].addr, start, end);
    Bounds(bs, start, end);
    assert OnlyAt(m0, m1, pos, pos, pos);
    hide Given, MovedTo, OnlyAt, Tiles, ShiftOf;
    forall i | 0 <= i < k
      ensures HeaderAt(m1, bs[i].addr)
           == if i + 1 < k then Expected(bs, i) else Expected(bs, i).(next := pos, size := bs[i].size + d)
    {
      assert HeaderAt(m, bs[i].addr) == Expected(bs, i);
      HeaderFrame(m0, m1, pos, pos, pos, bs[i].addr);
    }
  }

  /** In front of a moved header the links are in step with the sizes. */
  lemma PrefixLinks(m: seq<Byte>, m0: seq<Byte>, m1: seq<Byte>, bs: seq<Block>, k: nat, start: nat, end: nat)
    requires KernelRegion(m, start, end) && HeapShape(bs, start, end) && Layout(m, bs)
    requires 0 < k < |bs| && bs[k].addr + ShiftOf(bs[k]) < end
    requires var pos := bs[k].addr + ShiftOf(bs[k]); Given(m, m0, bs[k].addr) && MovedTo(m0, m1, bs[k].addr, pos)
    ensures LinksUp(m1, bs, k, bs[k].addr + ShiftOf(bs[k]), end)
  {
    hide HeaderAt, Distance, Given, MovedTo, Layout;
    PrefixHeaders(m, m0, m1, bs, k, ShiftOf(bs[k]), start, end);
    Bounds(bs, start, end);
  }

  lemma ApartOnPage(x: nat, pos: nat)
    requires x % PAGE == 0xd6d && OnPage(pos + HEADER)
    ensures Apart(x, pos)
  {
    var q, r := x / PAGE, (pos + HEADER) / PAGE;
    assert x == q * PAGE + 0xd6d && pos + HEADER == r * PAGE;
  }

  /** Where the moved header's next link points, the tail of the call can write. */
  lemma OverlapNext(m0: seq<Byte>, m1: seq<Byte>, block: nat, d: nat, start: nat, end: nat)
    requires KernelRegion(m0, start, end) && start <= block && block + HEADER <= end
    requires d == Distance(block + HEADER) < HEADER
    requires MovedTo(m0, m1, block, block + d) && HeaderAt(m0, block).magic == MAGIC
    requires var next := HeaderAt(m0, block).next; next != 0 ==> next + HEADER <= |m0|
    ensures block + d + HEADER <= |m1| && var next := HeaderAt(m1, block + d).next; next != 0 ==> next + HEADER <= |m1|
    ensures var next := HeaderAt(m0, block).next;
            d < 12 || next == 0 || block + d + HEADER <= next ==> NextApart(m1, block + d)
  {
    hide HeaderAt, MovedTo;
    assert OnPage(block + HEADER + d);
    hide Distance, OnPage;
    SameLength(m0, m1, block, block + d);
    if d == 6 {
      NextSix(m0, m1, block);
      ApartOnPage(HeaderAt(m1, block + d).next, block + d);
    } else if d < 12 {
      NextAlien(m0, m1, block, d);
    } else {
      FieldsKept(m0, m1, block, d);
    }
  }

  lemma SameLength(m0: seq<Byte>, m1: seq<Byte>, block: nat, pos: nat)
    requires MovedTo(m0, m1, block, pos)
    ensures |m1| == |m0| && pos + HEADER <= |m1|
  {
  }

  /** A header that is moved by less than its own length breaks the heap. */
  lemma OverlapBreaks(m: seq<Byte>, m1: seq<Byte>, m2: seq<Byte>, bs: seq<Block>, k: nat, n: nat, start: nat, end: nat)
    requires KernelRegion(m, start, end) && |m| == |m1| == |m2| && HeapShape(bs, start, end) && Layout(m, bs)
    requires k < |bs| && !bs[k].used && ShiftOf(bs[k]) < HEADER
    requires k == 0 || ShiftOf(bs[k]) < 12 || ShiftClear(bs, k)
    requires Aligned(m, m1, bs[k].addr) && FinishedSteps(m1, m2, bs[k].addr + ShiftOf(bs[k]), n)
    ensures !HoldsHeap(m2, start, end)
  {
    hide HeaderAt, Finished, FinishedSteps, MovedTo, Given, Copied, LinksUp, NextApart;
    var block, d := bs[k].addr, ShiftOf(bs[k]);
    var pos := block + d;
    if k == 0 {
      StepsMagic(m1, m2, pos, n);
      FirstOverwritten(m2, start, end, d);
    } else {
      var m0: seq<Byte> :| Given(m, m0, block) && MovedTo(m0, m1, block, pos);
      OldHeader(m, m0, bs, k, start, end);
      OverlapNext(m0, m1, block, d, start, end);
      StepsFinished(m1, m2, pos, n);
      ApartIs(m1, pos);
      Bounds(bs, start, end);
      PrefixLinks(m, m0, m1, bs, k, start, end);
      if 8 <= d <= 10 {
        NextAlien(m0, m1, block, d);
      } else {
        PreviousAlien(m0, m1, block, d);
      }
      AlienLink(m1, m2, bs, k, n, pos, start, end);
    }
  }

  lemma ApartIs(m: seq<Byte>, block: nat)
    requires NextApart(m, block)
    ensures block + HEADER <= |m|
    ensures var next := HeaderAt(m, block).next; next != 0 ==> next + HEADER <= |m| && Apart(next, block)
  {
  }

  /** What the move finds in the old header. */
  lemma OldHeader(m: seq<Byte>, m0: seq<Byte>, bs: seq<Block>, k: nat, start: nat, end: nat)
    requires KernelRegion(m, start, end) && HeapShape(bs, start, end) && Layout(m, bs)
    requires k < |bs| && !bs[k].used && Given(m, m0, bs[k].addr)
    ensures KernelRegion(m0, start, end) && start <= bs[k].addr && bs[k].Data() <= end
    ensures var h := HeaderAt(m0, bs[k].addr);
            && h.magic == MAGIC && h.size == U32(bs[k].size - ShiftOf(bs[k])) && h.next == NextOf(bs, k)
            && (h.next != 0 ==> h.next + HEADER <= |m0|)
            && (ShiftClear(bs, k) && ShiftOf(bs[k]) < HEADER && h.next != 0 ==>
                  bs[k].addr + ShiftOf(bs[k]) + HEADER <= h.next)
  {
    hide HeaderAt;
    Bounds(bs, start, end);
    assert HeaderAt(m, bs[k].addr) == Expected(bs, k);
  }

  /** A moved header that overlaps the following one breaks the heap. */
  lemma CornerBreaks(m: seq<Byte>, m1: seq<Byte>, m2: seq<Byte>, bs: seq<Block>, k: nat, n: nat, start: nat, end: nat)
    requires KernelRegion(m, start, end) && |m| == |m1| == |m2| && HeapShape(bs, start, end) && Layout(m, bs)
    requires 0 < k < |bs| && !bs[k].used && 12 <= ShiftOf(bs[k]) && !ShiftClear(bs, k) && ShiftLeaves(bs[k], n)
    requires Aligned(m, m1, bs[k].addr) && FinishedSteps(m1, m2, bs[k].addr + ShiftOf(bs[k]), n)
    ensures !HoldsHeap(m2, start, end)
  {
    hide HeaderAt, FinishedSteps, MovedTo, Given, Copied, LinksUp, Layout;
    var block, d := bs[k].addr, ShiftOf(bs[k]);
    var pos, x := block + d, d - bs[k].size;
    var m0: seq<Byte> :| Given(m, m0, block) && MovedTo(m0, m1, block, pos);
    OldHeader(m, m0, bs, k, start, end);
    FieldsKept(m0, m1, block, d);
    CornerPlace(bs, k, n, start, end);
    PrefixLinks(m, m0, m1, bs, k, start, end);
    NextOverwritten(m1, m2, bs, k, n, pos, x, start, end);
  }

  lemma CornerPlace(bs: seq<Block>, k: nat, n: nat, start: nat, end: nat)
    requires KHEAP <= start && end <= KHEAP_END && Tiles(bs, start, end)
    requires k < |bs| && !ShiftClear(bs, k) && ShiftLeaves(bs[k], n)
    ensures var d := ShiftOf(bs[k]); var pos, x := bs[k].addr + d, d - bs[k].size;
            && 0 < x < 32 && n < 0x1000 && (pos + HEADER) % 0x1000 == 0 && pos < end && pos + 2 * HEADER <= WORD
            && NextOf(bs, k) == pos + HEADER - x && U32(bs[k].size - d) == WORD - x
  {
    Bounds(bs, start, end);
    assert OnPage(bs[k].Data() + ShiftOf(bs[k]));
    ShiftedSize(bs[k].size, ShiftOf(bs[k]));
  }

  // ---------- The call ----------

  /** The block the search settles on. The request is enlarged by the first block's offset
      in its page, not by the chosen block's shift. */
  ghost predicate AlignedChoice(bs: seq<Block>, n: nat, k: nat) {
    |bs| > 0 && Found(bs, U32(n + bs[0].Data() % PAGE), k)
  }

  /** The heap lies at least a header above address zero and has three pages of address
      space behind it, as 0xd0000000 with 4 MB has (kernel/page.cpp:85-87). */
  ghost predicate Roomy(h: Heap)
    reads h
  {
    HEADER <= h.firstBlock && h.EndOfHeap() + 3 * PAGE <= h.mem.Length
  }

  /** The moved header does not overlap the following one: it stays in its block, or there is
      no following header, or it clears it. */
  predicate ShiftClear(bs: seq<Block>, k: nat)
    requires k < |bs|
  {
    ShiftOf(bs[k]) <= bs[k].size || k + 1 == |bs| || bs[k].size + 2 * HEADER <= ShiftOf(bs[k])
  }

  /** A request of a page or more never settles on a block smaller than its shift. */
  lemma BigRequest(b: Block, n: nat)
    requires PAGE <= n && ShiftLeaves(b, n)
    ensures ShiftOf(b) <= b.size
  {
  }

  /** The moved header overlaps its old place or, for less than a page, the following one. */
  predicate Overlapping(bs: seq<Block>, k: nat, n: nat)
    requires k < |bs|
  {
    ShiftOf(bs[k]) < HEADER || (n < PAGE && !ShiftClear(bs, k))
  }

  /** What the call makes of memory m, holding the list bs, when the search settled on block k. */
  ghost predicate AlignedEnd(m: seq<Byte>, m': seq<Byte>, bs: seq<Block>, k: nat, n: nat, start: nat, end: nat)
    requires k < |bs|
  {
    && (HoldsHeap(m', start, end) <==> AlignedOk(bs, k, n))
    && (AlignedOk(bs, k, n) ==> Layout(m', AlignedResult(bs, k, n)) && KeepsLive(m, m', Live(bs), start, end))
  }

  // ---------- The same in terms of addresses and sizes ----------

  /** The search asks for the request plus the first block's offset in its page: it settles on
      the first free block of minimal size for that, or on the first free block if none is
      large enough. */
  lemma ChoiceMeans(bs: seq<Block>, n: nat, k: nat)
    requires |bs| > 0
    ensures var r := (n + (bs[0].addr + 16) % 0x1000) % 0x1_0000_0000;
            AlignedChoice(bs, n, k) <==>
              && k < |bs| && !bs[k].used
              && if exists j :: 0 <= j < |bs| && !bs[j].used && r <= bs[j].size
                 then r <= bs[k].size
                      && forall j :: 0 <= j < |bs| && !bs[j].used && r <= bs[j].size ==>
                           bs[k].size <= bs[j].size && (bs[k].size == bs[j].size ==> k <= j)
                 else forall i :: 0 <= i < k ==> bs[i].used
  {
  }

  /** The assertion compares the request with the chosen block's size plus its page offset. */
  lemma RefusedMeans(bs: seq<Block>, k: nat, n: nat)
    requires k < |bs|
    ensures AlignedRefused(bs, k, n) <==> (bs[k].size + (bs[k].addr + 16) % 0x1000) % 0x1_0000_0000 < n
  {
  }

  /** The payload moves to the next page, by d bytes. */
  lemma OkMeans(bs: seq<Block>, k: nat, n: nat)
    requires k < |bs|
    ensures var data := bs[k].addr + 16; var d := data / 0x1000 * 0x1000 + 0x1000 - data;
            && bs[k].Data() == data && ShiftOf(bs[k]) == d
            && (AlignedOk(bs, k, n) <==>
                  0 < k && 16 <= d && n + d <= bs[k].size && (k + 1 == |bs| || bs[k].size - d > n + 20))
  {
  }

  /** The list after a call that keeps the heap. */
  lemma ResultMeans(bs: seq<Block>, k: nat, n: nat)
    requires k < |bs| && AlignedOk(bs, k, n)
    ensures var data := bs[k].addr + 16; var page := data / 0x1000 * 0x1000 + 0x1000;
            var left, before := bs[k].size - (page - data), bs[k - 1];
            AlignedResult(bs, k, n)
            == bs[..k - 1] + [Block(before.addr, before.size + (page - data), before.used)]
               + (if left > n + 20 then [Block(page - 16, n, true), Block(page + n, left - n - 16, false)]
                  else [Block(page - 16, left, true)])
               + bs[k + 1..]
  {
    OkMeans(bs, k, n);
    var d := ShiftOf(bs[k]);
    var r := Shift(bs, k, d);
    assert r[..k] == bs[..k - 1] + [bs[k - 1].(size := bs[k - 1].size + d)];
    assert r[k + 1..] == bs[k + 1..] && r[k] == Block(bs[k].addr + d, bs[k].size - d, bs[k].used);
    assert SetUsed(r, k, true) == r[..k] + [r[k].(used := true)] + r[k + 1..];
  }

  /** The kernel's own heap before anything was allocated: the first page-aligned request
      already meets a block without a predecessor. */
  lemma FreshHeapBreaks(n: nat)
    requires n <= 0x300000
    ensures var bs := Initial(0xd0000000, 0xd0400000);
            && AlignedChoice(bs, n, 0) && ShiftClear(bs, 0) && !AlignedRefused(bs, 0, n) && !AlignedOk(bs, 0, n)
  {
  }

  /** Heaps on which the call settles on block 1: one that it keeps, ... */
  lemma KeptCase(s: nat)
    requires s == 0xd0000000
    ensures var bs := [Block(s, 16, true), Block(s + 32, 0x2000, false)];
            Settles(bs, 0x800) && AlignedOk(bs, 1, 0x800)
  {
  }

  /** ... one whose block is too small after the shift, ... */
  lemma TooSmallCase(s: nat)
    requires s == 0xd0000000
    ensures var bs := [Block(s, 16, true), Block(s + 32, 0x1000, false)];
            Settles(bs, 0x100) && !AlignedOk(bs, 1, 0x100)
  {
  }

  /** ... or smaller than the shift itself, ... */
  lemma BelowShiftCase(s: nat)
    requires s == 0xd0000000
    ensures var bs := [Block(s, 16, true), Block(s + 32, 0x40, false),
                       Block(s + 0x70, 16, true), Block(s + 0x90, 0x2000, false)];
            Settles(bs, 0x20) && !AlignedOk(bs, 1, 0x20)
  {
  }

  /** ... one whose last back link goes stale, ... */
  lemma StaleCase(s: nat)
    requires s == 0xd0000000
    ensures var bs := [Block(s, 16, true), Block(s + 32, 0x1000, false), Block(s + 0x1030, 16, true)];
            Settles(bs, 0x20) && !AlignedOk(bs, 1, 0x20)
  {
  }

  /** ... one whose header moves by twelve bytes only, ... */
  lemma OverlapCase(s: nat)
    requires s == 0xd0000000
    ensures var bs := [Block(s, 0xfd4, true), Block(s + 0xfe4, 0x3000, false)];
            Settles(bs, 0x1000) && !AlignedOk(bs, 1, 0x1000)
  {
  }

  /** ... and one whose moved header overlaps the one behind the block. */
  lemma CornerCase(s: nat)
    requires s == 0xd0000000
    ensures var bs := [Block(s, 16, true), Block(s + 32, 0xfc0, false), Block(s + 0xff0, 16, true)];
            Settles(bs, 0x20) && !ShiftClear(bs, 1) && !AlignedOk(bs, 1, 0x20)
  {
    var b := Block(s + 32, 0xfc0, false);
    assert b.Data() == 0xd000_0030 && ShiftOf(b) == 0xfd0;
  }

  /** A heap whose first block is 16 bytes into its page: a request of a page passes over the
      block of exactly a page, which would break the heap, for the last one, which keeps it. */
  lemma EnlargedCase(s: nat)
    requires s == 0xd0000000
    ensures var bs := [Block(s, 16, true), Block(s + 32, 0x1000, false),
                       Block(s + 0x1030, 16, true), Block(s + 0x1050, 0x3000, false)];
            && AlignedChoice(bs, 0x1000, 3) && !AlignedChoice(bs, 0x1000, 1)
            && AlignedOk(bs, 3, 0x1000) && !AlignedOk(bs, 1, 0x1000)
  {
  }

  ghost predicate Settles(bs: seq<Block>, n: nat) {
    |bs| > 1 && AlignedChoice(bs, n, 1) && !AlignedRefused(bs, 1, n)
  }

  /** The assertion behind the aligned search fails (kernel/kmalloc.cpp:129). */
  predicate AlignedRefused(bs: seq<Block>, k: nat, n: nat)
    requires k < |bs|
  {
    U32(bs[k].size + bs[k].Data() % PAGE) < n
  }

  /** What the assertion guarantees: too little by up to a page. */
  predicate ShiftLeaves(b: Block, n: nat) { n <= b.size + b.Data() % PAGE }

  /** The aligned branch of `get_suitable_block` up to its assertion (kernel/kmalloc.cpp:107-130). */
  method FindAligned(h: Heap, n: nat) returns (r: Outcome<nat>, ghost k: nat)
    requires h.Valid() && n < WORD
    ensures r.Halted? ==> AllUsed(h.blocks) || (AlignedChoice(h.blocks, n, k) && AlignedRefused(h.blocks, k, n))
    ensures r.Done? ==> AlignedChoice(h.blocks, n, k) && !AlignedRefused(h.blocks, k, n) && h.At(k, r.value)
  {
    var required := U32(n + (h.firstBlock + HEADER) % PAGE);
    assert required == U32(n + h.blocks[0].Data() % PAGE);
    r, k := h.FindBlock(required);
    if r.Done? {
      h.ReadHeader(k, r.value);
      if U32(h.Read(r.value).size + (r.value + HEADER) % PAGE) < n {
        r := Halted;
      }
    }
  }

  /** `alloc_internal` with page alignment (kernel/kmalloc.cpp:106-131, 159-168): memory
      holds a well-formed heap afterwards exactly when the chosen block meets AlignedOk. */
  method AllocAligned(h: Heap, n: nat) returns (r: Outcome<nat>, ghost k: nat)
    requires h.Valid() && n < WORD && Roomy(h)
    requires forall b: nat :: AlignedChoice(h.blocks, n, b) && Overlapping(h.blocks, b, n) ==>
               KernelRegion(h.mem[..], h.firstBlock, h.EndOfHeap())
    modifies h`blocks, h.mem
    ensures r.Halted? ==> h.mem[..] == old(h.mem[..]) && h.blocks == old(h.blocks)
    ensures r.Halted? ==>
              AllUsed(old(h.blocks)) || (AlignedChoice(old(h.blocks), n, k) && AlignedRefused(old(h.blocks), k, n))
    ensures r.Done? ==> AlignedChoice(old(h.blocks), n, k) && !AlignedRefused(old(h.blocks), k, n)
    ensures r.Done? ==> r.value == old(h.blocks)[k].Data() + ShiftOf(old(h.blocks)[k]) && OnPage(r.value)
    ensures r.Done? ==> r.value == (old(h.blocks)[k].addr + 16) / 0x1000 * 0x1000 + 0x1000
    ensures r.Done? ==> AlignedEnd(old(h.mem[..]), h.mem[..], old(h.blocks), k, n, h.firstBlock, h.EndOfHeap())
    ensures r.Done? && AlignedOk(old(h.blocks), k, n) ==> h.Valid() && h.blocks == AlignedResult(old(h.blocks), k, n)
  {
    hide *;
    Invalidate(h);
    r, k := FindAligned(h, n);
    if r.Done? {
      ghost var m, bs := h.mem[..], h.blocks;
      ChosenReady(h, k, n, r.value);
      ShiftOnPage(bs[k]);
      OverlappingIs(bs, k, n);
      OkMeans(bs, k, n);
      var headerPos := AlignAndFinish(h.mem, r.value, n, bs, k, h.firstBlock, h.EndOfHeap());
      if AlignedOk(bs, k, n) {
        ghost var b := AlignedKeeps(bs, k, n, h.firstBlock, h.EndOfHeap());
        AlignedEndOk(m, h.mem[..], bs, k, n, h.firstBlock, h.EndOfHeap());
        h.blocks := AlignedResult(bs, k, n);
        Revalidate(h);
      }
      r := Done(headerPos + HEADER);
    }
  }

  lemma OverlappingIs(bs: seq<Block>, k: nat, n: nat)
    requires k < |bs| && ShiftLeaves(bs[k], n)
    ensures Overlapping(bs, k, n) <==> ShiftOf(bs[k]) < HEADER || !ShiftClear(bs, k)
  {
    if PAGE <= n { BigRequest(bs[k], n); }
  }

  lemma Invalidate(h: Heap)
    requires h.Valid() && Roomy(h)
    ensures 0 < h.firstBlock && HEADER <= h.firstBlock
    ensures h.EndOfHeap() <= h.mem.Length && h.EndOfHeap() + 3 * PAGE <= h.mem.Length <= WORD
  {
  }

  lemma ChosenReady(h: Heap, k: nat, n: nat, block: nat)
    requires h.Valid() && Roomy(h) && AlignedChoice(h.blocks, n, k) && !AlignedRefused(h.blocks, k, n) && h.At(k, block)
    ensures HeapShape(h.blocks, h.firstBlock, h.EndOfHeap()) && Layout(h.mem[..], h.blocks) && k < |h.blocks|
    ensures block == h.blocks[k].addr && !h.blocks[k].used && ShiftLeaves(h.blocks[k], n)
  {
  }

  lemma Revalidate(h: Heap)
    requires 0 < h.firstBlock && h.EndOfHeap() <= h.mem.Length <= WORD
    requires HeapShape(h.blocks, h.firstBlock, h.EndOfHeap()) && Layout(h.mem[..], h.blocks)
    ensures h.Valid()
  {
  }

  lemma AlignedEndOk(m: seq<Byte>, m': seq<Byte>, bs: seq<Block>, k: nat, n: nat, start: nat, end: nat)
    requires k < |bs| && AlignedEnd(m, m', bs, k, n, start, end) && AlignedOk(bs, k, n)
    ensures Layout(m', AlignedResult(bs, k, n))
  {
  }

  /** `make_aligned_block` followed by the tail of `alloc_internal`. */
  method AlignAndFinish(mem: array<Byte>, block: nat, n: nat, ghost bs: seq<Block>, ghost k: nat, ghost start: nat,
                        ghost end: nat)
    returns (headerPos: nat)
    requires HEADER <= start && end + 3 * PAGE <= mem.Length <= WORD
    requires HeapShape(bs, start, end) && Layout(mem[..], bs) && k < |bs| && !bs[k].used && block == bs[k].addr
    requires ShiftLeaves(bs[k], n)
    requires ShiftOf(bs[k]) < HEADER || !ShiftClear(bs, k) ==> KernelRegion(mem[..], start, end)
    modifies mem
    ensures headerPos + HEADER == bs[k].Data() + ShiftOf(bs[k])
    ensures AlignedEnd(old(mem[..]), mem[..], bs, k, n, start, end)
  {
    hide *;
    ghost var m := mem[..];
    AlignReady(m, bs, k, start, end);
    ShiftOnPage(bs[k]);
    headerPos := MakeAlignedBlock(mem, block);
    ghost var m1 := mem[..];
    FinishReady(m, m1, bs, k, n, start, end);
    Finish(mem, headerPos, n);
    Outcomes(m, m1, mem[..], bs, k, n, start, end);
  }

  lemma ShiftOnPage(b: Block)
    ensures OnPage(b.Data() + ShiftOf(b))
    ensures b.Data() == b.addr + HEADER && ShiftOf(b) == Distance(b.addr + HEADER)
  {
  }

  lemma AlignReady(m: seq<Byte>, bs: seq<Block>, k: nat, start: nat, end: nat)
    requires HEADER <= start && end + 3 * PAGE <= |m| <= WORD
    requires HeapShape(bs, start, end) && Layout(m, bs) && k < |bs| && !bs[k].used
    ensures CanAlign(m, bs[k].addr)
    ensures var p := HeaderAt(m, bs[k].addr).previous;
            HEADER <= ShiftOf(bs[k]) ==> Apart(p, bs[k].addr + ShiftOf(bs[k]))
  {
    hide HeaderAt;
    Bounds(bs, start, end);
    assert HeaderAt(m, bs[k].addr) == Expected(bs, k);
  }

  lemma FinishReady(m: seq<Byte>, m1: seq<Byte>, bs: seq<Block>, k: nat, n: nat, start: nat, end: nat)
    requires HEADER <= start && end + 3 * PAGE <= |m| == |m1| <= WORD
    requires HeapShape(bs, start, end) && Layout(m, bs) && k < |bs| && !bs[k].used
    requires ShiftLeaves(bs[k], n) && Aligned(m, m1, bs[k].addr)
    requires ShiftOf(bs[k]) < HEADER ==> KernelRegion(m, start, end)
    ensures CanFinish(m1, bs[k].addr + ShiftOf(bs[k]), n)
  {
    hide HeaderAt, MovedTo, Given, Layout, HeapShape, KernelRegion, Aligned;
    var block, d := bs[k].addr, ShiftOf(bs[k]);
    FinishRoom(bs, k, n, start, end);
    if HEADER <= d {
      AlignReady(m, bs, k, start, end);
      AlignedShifted(m, m1, block);
      ShiftedNext(m, m1, bs, k, start, end);
    } else {
      AlignedParts(m, m1, block);
      var m0: seq<Byte> :| Given(m, m0, block) && MovedTo(m0, m1, block, block + d);
      OldHeader(m, m0, bs, k, start, end);
      OverlapNext(m0, m1, block, d, start, end);
    }
  }

  lemma AlignedParts(m: seq<Byte>, m': seq<Byte>, block: nat)
    requires Aligned(m, m', block)
    ensures exists m0: seq<Byte> :: Given(m, m0, block) && MovedTo(m0, m', block, block + Distance(block + HEADER))
  {
  }

  /** The headers that the call writes lie in the space behind the heap at worst. */
  lemma FinishRoom(bs: seq<Block>, k: nat, n: nat, start: nat, end: nat)
    requires HeapShape(bs, start, end) && k < |bs| && ShiftLeaves(bs[k], n)
    ensures bs[k].addr + ShiftOf(bs[k]) + HEADER + n + HEADER <= end + 3 * PAGE
  {
    Bounds(bs, start, end);
  }

  lemma ShiftedNext(m: seq<Byte>, m1: seq<Byte>, bs: seq<Block>, k: nat, start: nat, end: nat)
    requires HeapShape(bs, start, end) && Layout(m, bs) && end <= |m| == |m1| && k < |bs|
    requires Shifted(m, m1, bs[k].addr)
    ensures var pos := bs[k].addr + ShiftOf(bs[k]);
            && pos + HEADER <= |m1|
            && (var next := HeaderAt(m1, pos).next; next != 0 ==> next + HEADER <= |m1|)
            && (ShiftClear(bs, k) ==> NextApart(m1, pos))
  {
    hide HeaderAt;
    Bounds(bs, start, end);
    assert HeaderAt(m, bs[k].addr) == Expected(bs, k);
  }

  lemma Outcomes(m: seq<Byte>, m1: seq<Byte>, m2: seq<Byte>, bs: seq<Block>, k: nat, n: nat, start: nat, end: nat)
    requires HEADER <= start && end + 3 * PAGE <= |m| == |m1| == |m2| <= WORD
    requires HeapShape(bs, start, end) && Layout(m, bs) && k < |bs| && !bs[k].used && ShiftLeaves(bs[k], n)
    requires ShiftOf(bs[k]) < HEADER || !ShiftClear(bs, k) ==> KernelRegion(m, start, end)
    requires Aligned(m, m1, bs[k].addr) && FinishedSteps(m1, m2, bs[k].addr + ShiftOf(bs[k]), n)
    ensures AlignedEnd(m, m2, bs, k, n, start, end)
  {
    hide Layout, Shifted, Finished, FinishedSteps, KeepsLive, Live, Aligned, KernelRegion, HeaderAt, NextApart,
         HoldsHeap;
    var d := ShiftOf(bs[k]);
    if d < HEADER && (k == 0 || d < 12 || ShiftClear(bs, k)) {
      OverlapBreaks(m, m1, m2, bs, k, n, start, end);
    } else if k > 0 && !ShiftClear(bs, k) {
      if AlignedOk(bs, k, n) { ClearWhenOk(bs, k, n); }
      CornerBreaks(m, m1, m2, bs, k, n, start, end);
    } else {
      AlignReady(m, bs, k, start, end);
      AlignedShifted(m, m1, bs[k].addr);
      if k == 0 {
        NoPredecessor(m, m1, m2, bs, n, start, end);
      } else {
        ShiftedNext(m, m1, bs, k, start, end);
        StepsFinished(m1, m2, bs[k].addr + d, n);
        ShiftedEnd(m, m1, m2, bs, k, n, start, end);
      }
    }
  }

  lemma ClearWhenOk(bs: seq<Block>, k: nat, n: nat)
    requires k < |bs| && AlignedOk(bs, k, n)
    ensures ShiftClear(bs, k)
  {
  }

  lemma ShiftedEnd(m: seq<Byte>, m1: seq<Byte>, m2: seq<Byte>, bs: seq<Block>, k: nat, n: nat, start: nat, end: nat)
    requires HEADER <= start && end + 3 * PAGE <= |m| == |m1| == |m2| <= WORD
    requires HeapShape(bs, start, end) && Layout(m, bs) && 0 < k < |bs| && !bs[k].used && ShiftLeaves(bs[k], n)
    requires HEADER <= ShiftOf(bs[k]) && ShiftClear(bs, k)
    requires Shifted(m, m1, bs[k].addr) && Finished(m1, m2, bs[k].addr + ShiftOf(bs[k]), n)
    ensures AlignedEnd(m, m2, bs, k, n, start, end)
  {
    hide Layout, Shifted, Finished, KeepsLive, Live, HeaderAt;
    if bs[k].size < n + ShiftOf(bs[k]) {
      TooSmall(m, m1, m2, bs, k, n, start, end);
    } else {
      ShiftedOutcome(m, m1, m2, bs, k, n, start, end);
      if AlignedOk(bs, k, n) {
        var b := AlignedKeeps(bs, k, n, start, end);
      }
    }
  }
}
