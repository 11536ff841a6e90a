/** What is left of a block header that was moved by less than its own length, and why no
    heap can be read from such memory (kernel/kmalloc.cpp:87-92). */
module OverlappedHeap {
  import opened Memory
  import opened HeapBlocks
  import opened HeapMemory
  import opened HeapHeaders

  // The region of the kernel's heap (kernel/page.cpp:85-87).
  const KHEAP: nat := 0xd0000000
  const KHEAP_END: nat := 0xd0400000

  ghost predicate KernelRegion(m: seq<Byte>, start: nat, end: nat) {
    |m| == WORD && KHEAP <= start && end <= KHEAP_END
  }

  /** Neither null nor near the kernel's heap. */
  predicate Alien(x: nat) { 0 < x && (x + HEADER <= KHEAP || 0xd0500000 <= x) }

  /** m1 is m0 after the forward copy of the header at `block` to pos. */
  ghost predicate MovedTo(m0: seq<Byte>, m1: seq<Byte>, block: nat, pos: nat) {
    && block + HEADER <= |m0| && pos + HEADER <= |m0| && OnlyAt(m0, m1, pos, pos, pos)
    && forall i :: 0 <= i < HEADER ==> m1[pos + i] == Copied(m0, pos, block, i)
  }

  // ---------- The bytes of the moved header ----------

  predicate MagicByte(b: Byte) { b == 0xd6 || b == 0x9c || b == 0x6d || b == 0x5d }

  lemma MagicBytes(m: seq<Byte>, a: nat)
    requires a + 4 <= |m| && Word(m, a) == MAGIC
    ensures m[a] == 0xd6 && m[a + 1] == 0x9c && m[a + 2] == 0x6d && m[a + 3] == 0x5d
  {
  }

  lemma AlienTop(m: seq<Byte>, a: nat)
    requires a + 4 <= |m| && MagicByte(m[a + 3])
    ensures Alien(Word(m, a)) && Word(m, a) + HEADER <= WORD
  {
  }

  lemma AlienMiddle(m: seq<Byte>, a: nat)
    requires a + 4 <= |m| && m[a + 2] == 0x5d
    ensures Alien(Word(m, a)) && Word(m, a) + HEADER <= WORD
  {
  }

  /** Byte i of the moved header is byte i modulo d of the old one. */
  lemma Echo(m0: seq<Byte>, m1: seq<Byte>, block: nat, d: nat, i: nat)
    requires MovedTo(m0, m1, block, block + d) && 0 < d && i < HEADER
    ensures m1[block + d + i] == m0[block + Wrap(i, d)]
  {
    assert m1[(block + d) + i] == Copied(m0, block + d, block, i);
  }

  /** Which byte of the old header ends up on top of the moved links. */
  lemma TopBytes(d: nat)
    requires 0 < d < HEADER
    ensures d < 8 || 11 < d ==> Wrap(15, d) < 4
    ensures d == 11 ==> Wrap(14, d) == 3
    ensures d < 12 && d != 6 && d != 7 ==> Wrap(11, d) < 4
    ensures d == 7 ==> Wrap(10, d) == 3
    ensures d == 6 ==> Wrap(8, d) == 2 && Wrap(9, d) == 3
  {
    if d == 5 {
      assert Wrap(15, 5) == Wrap(10, 5) == Wrap(5, 5) == Wrap(0, 5);
      assert Wrap(11, 5) == Wrap(6, 5) == Wrap(1, 5);
    } else if d == 6 {
      assert Wrap(15, 6) == Wrap(9, 6) == Wrap(3, 6);
    } else if d == 7 {
      assert Wrap(15, 7) == Wrap(8, 7) == Wrap(1, 7);
    }
  }

  lemma PreviousAlien(m0: seq<Byte>, m1: seq<Byte>, block: nat, d: nat)
    requires 0 < d < HEADER && MovedTo(m0, m1, block, block + d) && HeaderAt(m0, block).magic == MAGIC
    requires d < 8 || 10 < d
    ensures Alien(HeaderAt(m1, block + d).previous)
  {
    hide Word, Copied;
    MagicBytes(m0, block);
    TopBytes(d);
    if d == 11 {
      Echo(m0, m1, block, d, 14);
      AlienMiddle(m1, block + d + PREVIOUS_AT);
    } else {
      Echo(m0, m1, block, d, 15);
      AlienTop(m1, block + d + PREVIOUS_AT);
    }
  }

  lemma NextAlien(m0: seq<Byte>, m1: seq<Byte>, block: nat, d: nat)
    requires 0 < d < 12 && d != 6 && MovedTo(m0, m1, block, block + d) && HeaderAt(m0, block).magic == MAGIC
    ensures Alien(HeaderAt(m1, block + d).next) && HeaderAt(m1, block + d).next + HEADER <= WORD
  {
    hide Word, Copied;
    MagicBytes(m0, block);
    TopBytes(d);
    if d == 7 {
      Echo(m0, m1, block, d, 10);
      AlienMiddle(m1, block + d + NEXT_AT);
    } else {
      Echo(m0, m1, block, d, 11);
      AlienTop(m1, block + d + NEXT_AT);
    }
  }

  lemma LowHalf(m: seq<Byte>, a: nat)
    requires a + 4 <= |m| && m[a] == 0x6d && m[a + 1] == 0x5d
    ensures Word(m, a) % 0x1000 == 0xd6d && Word(m, a) + HEADER <= WORD
  {
    var b2: int, b3: int := m[a + 2], m[a + 3];
    assert Word(m, a) == 0x1000 * (5 + 16 * b2 + 0x1000 * b3) + 0xd6d;
  }

  lemma NextSix(m0: seq<Byte>, m1: seq<Byte>, block: nat)
    requires MovedTo(m0, m1, block, block + 6) && HeaderAt(m0, block).magic == MAGIC
    ensures HeaderAt(m1, block + 6).next % 0x1000 == 0xd6d && HeaderAt(m1, block + 6).next + HEADER <= WORD
  {
    hide Word, Copied;
    MagicBytes(m0, block);
    TopBytes(6);
    Echo(m0, m1, block, 6, 8);
    Echo(m0, m1, block, 6, 9);
    LowHalf(m1, block + 6 + NEXT_AT);
  }

  lemma WordEqual(m: seq<Byte>, m': seq<Byte>, a: nat, b: nat)
    requires a + 4 <= |m| && b + 4 <= |m'|
    requires m'[b] == m[a] && m'[b + 1] == m[a + 1] && m'[b + 2] == m[a + 2] && m'[b + 3] == m[a + 3]
    ensures Word(m', b) == Word(m, a)
  {
  }

  /** A move by twelve bytes or more leaves everything but the back link intact. */
  lemma FieldsKept(m0: seq<Byte>, m1: seq<Byte>, block: nat, d: nat)
    requires 12 <= d && MovedTo(m0, m1, block, block + d)
    ensures var h, h0 := HeaderAt(m1, block + d), HeaderAt(m0, block);
            h.magic == h0.magic && h.size == h0.size && h.next == h0.next
  {
    hide Word, Copied;
    FieldKept(m0, m1, block, d, MAGIC_AT);
    FieldKept(m0, m1, block, d, SIZE_AT);
    FieldKept(m0, m1, block, d, NEXT_AT);
  }

  lemma FieldKept(m0: seq<Byte>, m1: seq<Byte>, block: nat, d: nat, at: nat)
    requires at + 4 <= 12 <= d && MovedTo(m0, m1, block, block + d)
    ensures Word(m1, block + d + at) == Word(m0, block + at)
  {
    hide Word, Copied;
    Echo(m0, m1, block, d, at);
    Echo(m0, m1, block, d, at + 1);
    Echo(m0, m1, block, d, at + 2);
    Echo(m0, m1, block, d, at + 3);
    WordEqual(m0, m1, block + at, block + d + at);
  }

  // ---------- A first block moved onto itself ----------

  /** The last write of the call puts the used magic d bytes into the first header, which
      then is no header of a heap of this size. */
  lemma FirstOverwritten(m: seq<Byte>, start: nat, end: nat, d: nat)
    requires 0 < d < HEADER && KernelRegion(m, start, end) && start + d + HEADER <= |m|
    requires HeaderAt(m, start + d).magic == MAGIC + 1
    ensures !HoldsHeap(m, start, end)
  {
    if HoldsHeap(m, start, end) {
      hide HeaderAt;
      var cs: seq<Block> :| Tiles(cs, start, end) && Layout(m, cs);
      Bounds(cs, start, end);
      var h := HeaderAt(m, start);
      assert HeaderAt(m, cs[0].addr) == Expected(cs, 0);
      assert h.previous == 0 && h.size < 0x400000 && (h.next == 0 || KHEAP <= h.next < KHEAP_END);
      assert h.magic == MAGIC || h.magic == MAGIC + 1;
      hide Layout, Tiles;
      FirstFields(m, start, d);
      assert false;
    }
  }

  lemma UsedMagicBytes(m: seq<Byte>, a: nat)
    requires a + 4 <= |m| && Word(m, a) == MAGIC + 1
    ensures m[a] == 0xd7 && m[a + 1] == 0x9c && m[a + 2] == 0x6d && m[a + 3] == 0x5d
  {
  }

  lemma TopOf(m: seq<Byte>, a: nat)
    requires a + 4 <= |m|
    ensures m[a + 3] != 0 ==> 0x1000000 * (m[a + 3] as int) <= Word(m, a)
    ensures (Word(m, a) == 0 ==> m[a] == m[a + 1] == m[a + 2] == m[a + 3] == 0)
  {
  }

  lemma ValidMagicBytes(m: seq<Byte>, a: nat)
    requires a + 4 <= |m| && (Word(m, a) == MAGIC || Word(m, a) == MAGIC + 1)
    ensures m[a + 1] == 0x9c && m[a + 2] == 0x6d && m[a + 3] == 0x5d
  {
  }

  lemma FirstFields(m: seq<Byte>, start: nat, d: nat)
    requires 0 < d < HEADER && start + d + HEADER <= |m| && HeaderAt(m, start + d).magic == MAGIC + 1
    ensures var h := HeaderAt(m, start);
            !(&& (h.magic == MAGIC || h.magic == MAGIC + 1) && h.size < 0x400000
              && (h.next == 0 || KHEAP <= h.next < KHEAP_END) && h.previous == 0)
  {
    hide Word;
    UsedMagicBytes(m, start + d);
    if d < 4 {
      var h := HeaderAt(m, start);
      if h.magic == MAGIC || h.magic == MAGIC + 1 { ValidMagicBytes(m, start); }
    } else if d < 8 {
      TopOf(m, start + SIZE_AT);
    } else if d > 8 {
      TopOf(m, start + PREVIOUS_AT);
    }
  }

  // ---------- A chain of which one word was overwritten ----------

  /** Below pos the two memories differ in at most four adjacent bytes. */
  ghost predicate Window(m: seq<Byte>, m': seq<Byte>, pos: nat, w: nat) {
    |m'| == |m| && forall x :: 0 <= x < |m| && x < pos && !(w <= x < w + 4) ==> m'[x] == m[x]
  }

  /** One overwritten word cannot change a header's link and keep it in step with its size. */
  lemma LinkStays(m: seq<Byte>, m': seq<Byte>, a: nat, pos: nat, w: nat, end: nat)
    requires Window(m, m', pos, w) && a + HEADER <= pos <= |m|
    requires var h := HeaderAt(m, a); h.next == a + HEADER + h.size && KHEAP <= h.next < end
    requires var h := HeaderAt(m', a);
             h.next == a + HEADER + h.size || (h.next == 0 && a + HEADER + h.size == end)
    ensures HeaderAt(m', a).next == HeaderAt(m, a).next
  {
  }

  lemma SameWordBytes(m: seq<Byte>, m': seq<Byte>, a: nat)
    requires a + 4 <= |m| && a + 4 <= |m'| && Word(m', a) == Word(m, a)
    ensures m'[a] == m[a] && m'[a + 1] == m[a + 1] && m'[a + 2] == m[a + 2] && m'[a + 3] == m[a + 3]
  {
    var b1: int, b2: int, b3: int := m[a + 1], m[a + 2], m[a + 3];
    var c1: int, c2: int, c3: int := m'[a + 1], m'[a + 2], m'[a + 3];
    SameDigit(m[a], b1 + 0x100 * b2 + 0x1_0000 * b3, m'[a], c1 + 0x100 * c2 + 0x1_0000 * c3);
    SameDigit(m[a + 1], b2 + 0x100 * b3, m'[a + 1], c2 + 0x100 * c3);
    SameDigit(m[a + 2], b3, m'[a + 2], c3);
  }

  lemma SameDigit(b: Byte, q: int, c: Byte, r: int)
    requires b + 0x100 * q == c + 0x100 * r
    ensures b == c && q == r
  {
  }

  lemma OnlyPrevious(m: seq<Byte>, m': seq<Byte>, a: nat, w: nat)
    requires a + HEADER <= |m| == |m'| && HeaderAt(m', a) == HeaderAt(m, a).(previous := w)
    ensures forall x :: a <= x < a + PREVIOUS_AT ==> m'[x] == m[x]
  {
    hide Word;
    SameWordBytes(m, m', a + MAGIC_AT);
    SameWordBytes(m, m', a + SIZE_AT);
    SameWordBytes(m, m', a + NEXT_AT);
  }

  /** Whatever the moved header's next link is, the tail of the call overwrites at most one
      word in front of the block: the back link of the header it points at. */
  lemma FinishWindow(m: seq<Byte>, m': seq<Byte>, pos: nat, n: nat) returns (w: nat)
    requires Finished(m, m', pos, n) && |m'| == |m|
    requires var next := HeaderAt(m, pos).next; next != 0 ==> next + HEADER <= |m| && Apart(next, pos)
    ensures Window(m, m', pos, w)
  {
    hide HeaderAt;
    var h := HeaderAt(m, pos);
    w := h.next + PREVIOUS_AT;
    if U32(h.size - n) > HEADER + MIN_BLOCK_SIZE {
      var m1: seq<Byte> :| SplitIfWorth(m, m1, pos, n) && Marked(m1, m', pos, true);
      var rest := pos + HEADER + n;
      if h.next != 0 && Apart(h.next, rest) {
        OnlyPrevious(m, m1, h.next, rest);
      }
    } else {
      FinishPlain(m, m', pos, n);
    }
  }

  /** The first k headers link up, each in step with its size, and lead to pos. */
  ghost predicate LinksUp(m: seq<Byte>, bs: seq<Block>, k: nat, pos: nat, end: nat) {
    && 0 < k <= |bs| && pos < end && pos <= |m| && KHEAP <= pos
    && forall i {:trigger HeaderAt(m, bs[i].addr)} :: 0 <= i < k ==>
         && KHEAP <= bs[i].addr && bs[i].addr + HEADER <= pos
         && HeaderAt(m, bs[i].addr).next == (if i + 1 < k then bs[i + 1].addr else pos)
         && KHEAP <= HeaderAt(m, bs[i].addr).next < end
         && HeaderAt(m, bs[i].addr).next == bs[i].addr + HEADER + HeaderAt(m, bs[i].addr).size
  }

  /** Every heap in such memory has its block k at pos. */
  lemma {:induction false} Reaches(m: seq<Byte>, m': seq<Byte>, bs: seq<Block>, k: nat, pos: nat, w: nat,
                                   cs: seq<Block>, start: nat, end: nat, i: nat)
    requires LinksUp(m, bs, k, pos, end) && Window(m, m', pos, w) && bs[0].addr == start && i <= k
    requires Tiles(cs, start, end) && Layout(m', cs)
    ensures i < |cs| && cs[i].addr == if i < k then bs[i].addr else pos
  {
    hide HeaderAt;
    if i > 0 {
      Reaches(m, m', bs, k, pos, w, cs, start, end, i - 1);
      var a := bs[i - 1].addr;
      assert HeaderAt(m, bs[i - 1].addr).next == a + HEADER + HeaderAt(m, a).size;
      assert HeaderAt(m', cs[i - 1].addr) == Expected(cs, i - 1);
      LinkStays(m, m', a, pos, w, end);
    }
  }

  /** A block whose moved header has an alien link is no block of a heap. */
  lemma AlienLink(m: seq<Byte>, m': seq<Byte>, bs: seq<Block>, k: nat, n: nat, pos: nat, start: nat, end: nat)
    requires KernelRegion(m, start, end) && |m'| == |m| && LinksUp(m, bs, k, pos, end) && bs[0].addr == start
    requires pos + HEADER <= |m| && Finished(m, m', pos, n)
    requires var h := HeaderAt(m, pos);
             && (h.next != 0 ==> h.next + HEADER <= |m| && Apart(h.next, pos))
             && (Alien(h.previous) || Alien(h.next))
    ensures !HoldsHeap(m', start, end)
  {
    hide HeaderAt, Finished;
    var h := HeaderAt(m, pos);
    var w := FinishWindow(m, m', pos, n);
    var split := U32(h.size - n) > HEADER + MIN_BLOCK_SIZE;
    if split { FinishSplit(m, m', pos, n); } else { FinishPlain(m, m', pos, n); }
    if HoldsHeap(m', start, end) {
      var cs: seq<Block> :| Tiles(cs, start, end) && Layout(m', cs);
      NoAlien(m', cs, start, end);
      Reaches(m, m', bs, k, pos, w, cs, start, end, k);
      assert false;
    }
  }

  /** The links of a heap in the kernel's region stay in the region. */
  lemma NoAlien(m: seq<Byte>, cs: seq<Block>, start: nat, end: nat)
    requires KernelRegion(m, start, end) && Tiles(cs, start, end) && Layout(m, cs)
    ensures forall i {:trigger cs[i]} :: 0 <= i < |cs| ==> cs[i].End() <= |m| && NoAlienAt(m, cs, i, end)
  {
    forall i | 0 <= i < |cs| ensures cs[i].End() <= |m| && NoAlienAt(m, cs, i, end) {
      LinkInRegion(m, cs, i, start, end);
    }
  }

  ghost predicate NoAlienAt(m: seq<Byte>, cs: seq<Block>, i: nat, end: nat)
    requires i < |cs| && cs[i].End() <= |m|
  {
    var h := HeaderAt(m, cs[i].addr);
    && !Alien(h.next) && (i > 0 ==> !Alien(h.previous))
    && cs[i].addr + HEADER + h.size <= end && (h.next == 0 || h.next == cs[i].addr + HEADER + h.size)
    && (h.next != 0 ==> i + 1 < |cs| && cs[i + 1].addr == h.next)
  }

  lemma LinkInRegion(m: seq<Byte>, cs: seq<Block>, i: nat, start: nat, end: nat)
    requires KernelRegion(m, start, end) && Tiles(cs, start, end) && Layout(m, cs) && i < |cs|
    ensures cs[i].End() <= |m| && NoAlienAt(m, cs, i, end)
  {
    hide HeaderAt;
    Bounds(cs, start, end);
    assert HeaderAt(m, cs[i].addr) == Expected(cs, i);
  }

  // ---------- A moved header on the following one ----------

  lemma WrappedBytes(m: seq<Byte>, a: nat, x: nat)
    requires a + 4 <= |m| && 0 < x < 32 && Word(m, a) == WORD - x
    ensures m[a] == 256 - x && m[a + 1] == 255 && m[a + 2] == 255 && m[a + 3] == 255
  {
  }

  lemma RegionBytes(m: seq<Byte>, a: nat)
    requires a + 4 <= |m| && KHEAP <= Word(m, a) < 0xd0410000
    ensures m[a + 3] == 0xd0 && m[a + 2] < 0x41
  {
  }

  lemma LowByteOf(m: seq<Byte>, a: nat)
    requires a + 4 <= |m|
    ensures Word(m, a) % 0x100 == m[a]
  {
    var b0: int, b1: int, b2: int, b3: int := m[a], m[a + 1], m[a + 2], m[a + 3];
    assert Word(m, a) == 0x100 * (b1 + 0x100 * b2 + 0x1_0000 * b3) + b0;
  }

  lemma HighBytes(m: seq<Byte>, a: nat)
    requires a + 4 <= |m|
    ensures m[a + 3] == 255 || m[a + 2] == 255 ==> Word(m, a) >= 0xff_0000
  {
  }

  /** The header behind the block lies x bytes in front of the moved header's end, and its
      back link is set over the moved header. Its size wrapped to 2^32 - x before. Either the
      size stays out of range, or the next link no longer is in step with it. */
  lemma LinkOverHeader(m: seq<Byte>, q: seq<Byte>, pos: nat, x: nat, rest: nat)
    requires pos + 2 * HEADER <= |m| && 0 < x < 32 && (pos + HEADER) % 0x1000 == 0
    requires HeaderAt(m, pos).size == WORD - x && KHEAP <= rest < 0xd0410000
    requires Stored(m, q, pos + HEADER - x + PREVIOUS_AT, rest)
    ensures var h := HeaderAt(q, pos); h.size < 0x402000 ==> h.next != 0 && h.next != pos + HEADER + h.size
  {
    hide Word;
    var at := pos + HEADER - x + PREVIOUS_AT;
    WrappedBytes(m, pos + SIZE_AT, x);
    RegionBytes(q, at);
    HighBytes(q, pos + SIZE_AT);
    if x == 23 || x == 22 {
      LowByteOf(q, pos + SIZE_AT);
      LowByteOf(q, pos + NEXT_AT);
      OutOfStep(pos, HeaderAt(q, pos).size, HeaderAt(q, pos).next);
      TopOf(q, pos + NEXT_AT);
    } else if x == 24 {
      assert at == pos + SIZE_AT;
    } else if x < 21 || 27 < x {
      WordEqual(m, q, pos + SIZE_AT, pos + SIZE_AT);
    }
  }

  lemma OutOfStep(pos: nat, size: nat, next: nat)
    requires (pos + HEADER) % 0x1000 == 0
    ensures next == pos + HEADER + size ==> next % 0x100 == size % 0x100
  {
    var q := (pos + HEADER) / 0x1000;
    assert pos + HEADER + size == 0x100 * (0x10 * q) + size;
  }

  /** What the tail of the call leaves of two headers when the first is certainly split. */
  lemma SplitFields(m: seq<Byte>, m': seq<Byte>, pos: nat, n: nat) returns (q: seq<Byte>)
    requires FinishedSteps(m, m', pos, n) && |m'| == |m|
    requires var h := HeaderAt(m, pos); U32(h.size - n) > HEADER + MIN_BLOCK_SIZE && h.next != 0
    ensures var next, rest := HeaderAt(m, pos).next, pos + HEADER + n;
            && rest + HEADER <= |m| && next + HEADER <= |m|
            && Stored(m, q, next + PREVIOUS_AT, rest)
            && Window(m, m', pos, next + PREVIOUS_AT)
            && HeaderAt(m', pos) == Header(MAGIC + 1, n, rest, HeaderAt(q, pos).previous)
            && HeaderAt(m', rest)
               == Header(MAGIC, U32(HeaderAt(q, pos).size - n - HEADER), HeaderAt(q, pos).next, pos)
  {
    hide HeaderAt, Word;
    var rest := pos + HEADER + n;
    var m1: seq<Byte> :| SplitSteps(m, m1, pos, n) && Marked(m1, m', pos, true);
    q :| LinkedBack(m, q, pos, rest) && SplitHere(q, m1, pos, n);
    HeaderFrame(m1, m', pos, pos, pos, rest);
  }

  /** The block that a heap has behind the one at pos. */
  lemma BlockBehind(m: seq<Byte>, cs: seq<Block>, k: nat, pos: nat, start: nat, end: nat)
    requires KernelRegion(m, start, end) && Tiles(cs, start, end) && Layout(m, cs)
    requires k < |cs| && cs[k].addr == pos && pos + HEADER <= |m| && HeaderAt(m, pos).next != 0
    ensures var rest := HeaderAt(m, pos).next;
            && rest + HEADER <= |m|
            && var r := HeaderAt(m, rest);
            && rest + HEADER + r.size <= end <= KHEAP_END && (r.next == 0 || r.next == rest + HEADER + r.size)
  {
    hide HeaderAt, Alien, Tiles, Layout;
    NoAlien(m, cs, start, end);
    assert cs[k + 1].addr == HeaderAt(m, cs[k].addr).next;
  }

  lemma OutOfRange(rest: nat, size: nat, next: nat, n: nat, pos: nat)
    requires size < WORD && n < 0x1000 && rest == pos + HEADER + n && KHEAP <= pos
    requires var left := U32(size - n - HEADER);
             rest + HEADER + left <= KHEAP_END && (next == 0 || next == rest + HEADER + left)
    ensures size < 0x402000 && (next == 0 || next == pos + HEADER + size)
  {
  }

  /** A moved header that overlaps the following one leaves no heap. */
  lemma NextOverwritten(m: seq<Byte>, m': seq<Byte>, bs: seq<Block>, k: nat, n: nat, pos: nat, x: nat, start: nat,
                        end: nat)
    requires KernelRegion(m, start, end) && |m'| == |m| && LinksUp(m, bs, k, pos, end) && bs[0].addr == start
    requires pos + 2 * HEADER <= |m| && FinishedSteps(m, m', pos, n) && n < 0x1000 && 0 < x < 32
    requires (pos + HEADER) % 0x1000 == 0
    requires var h := HeaderAt(m, pos); h.size == WORD - x && h.next == pos + HEADER - x
    ensures !HoldsHeap(m', start, end)
  {
    hide HeaderAt, FinishedSteps, Word, Alien;
    var rest := pos + HEADER + n;
    var q := SplitFields(m, m', pos, n);
    var h := HeaderAt(q, pos);
    assert KHEAP <= pos < end;
    hide LinksUp, Window, Stored, Tiles, Layout;
    LinkOverHeader(m, q, pos, x, rest);
    if HoldsHeap(m', start, end) {
      var cs: seq<Block> :| Tiles(cs, start, end) && Layout(m', cs);
      Reaches(m, m', bs, k, pos, pos + HEADER - x + PREVIOUS_AT, cs, start, end, k);
      BlockBehind(m', cs, k, pos, start, end);
      OutOfRange(rest, h.size, h.next, n, pos);
    }
  }
}
