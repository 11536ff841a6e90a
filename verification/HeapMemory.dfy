/** The block list as it lies in memory: what a header holds, and what one header
    write does to the other headers, to payloads and to the rest of memory. */
module HeapMemory {
  import opened Memory
  import opened HeapBlocks

  const MAGIC: nat := 0x5d6d9cd6

  // Offsets of the fields of `struct block_header` (includes/kernel/kmalloc.h:13-31).
  const MAGIC_AT: nat := 0
  const SIZE_AT: nat := 4
  const NEXT_AT: nat := 8
  const PREVIOUS_AT: nat := 12

  datatype Header = Header(magic: nat, size: nat, next: nat, previous: nat)

  function HeaderAt(m: seq<Byte>, a: nat): (h: Header)
    requires a + HEADER <= |m|
    ensures h.magic < WORD && h.size < WORD && h.next < WORD && h.previous < WORD
  {
    Header(Word(m, a + MAGIC_AT), Word(m, a + SIZE_AT), Word(m, a + NEXT_AT), Word(m, a + PREVIOUS_AT))
  }

  predicate IsUsed(magic: nat) { magic % 2 == 1 }

  predicate IsValid(magic: nat) { magic - magic % 2 == MAGIC }

  function MagicOf(used: bool): nat { if used then MAGIC + 1 else MAGIC }

  function NextOf(bs: seq<Block>, i: nat): nat { if i + 1 < |bs| then bs[i + 1].addr else 0 }

  function PreviousOf(bs: seq<Block>, i: nat): nat
    requires i <= |bs|
  {
    if i > 0 then bs[i - 1].addr else 0
  }

  function Expected(bs: seq<Block>, i: nat): Header
    requires i < |bs|
  {
    Header(MagicOf(bs[i].used), bs[i].size, NextOf(bs, i), PreviousOf(bs, i))
  }

  ghost predicate InMemory(m: seq<Byte>, bs: seq<Block>) {
    forall i :: 0 <= i < |bs| ==> bs[i].End() <= |m|
  }

  /** Every header in memory says what the block list says. */
  ghost predicate Layout(m: seq<Byte>, bs: seq<Block>) {
    && InMemory(m, bs)
    && forall i {:trigger HeaderAt(m, bs[i].addr)} :: 0 <= i < |bs| ==> HeaderAt(m, bs[i].addr) == Expected(bs, i)
  }

  /** Memory outside the region and every byte of the live payloads are the same. */
  lemma KeepsLiveMeans(m: seq<Byte>, m': seq<Byte>, live: set<Block>, start: nat, end: nat, x: nat)
    requires KeepsLive(m, m', live, start, end) && x < |m|
    ensures |m'| == |m|
    ensures x < start || end <= x ==> m'[x] == m[x]
    ensures (exists b :: b in live && b.addr + 16 <= x < b.addr + 16 + b.size) ==> m'[x] == m[x]
  {
    if b :| b in live && b.addr + 16 <= x < b.addr + 16 + b.size {
      assert Payload(m', b) == Payload(m, b);
      assert m'[x] == Payload(m', b)[x - b.Data()];
    }
  }

  /** Byte i of block k's payload is at q + i. */
  lemma CarriedMeans(m: seq<Byte>, m': seq<Byte>, bs: seq<Block>, k: nat, q: nat, start: nat, end: nat, i: nat)
    requires k < |bs| && Carried(m, m', bs, k, q, start, end) && i < bs[k].size
    ensures bs[k].addr + 16 + i < |m| && q + i < |m'| && m'[q + i] == m[bs[k].addr + 16 + i]
  {
    hide KeepsLive;
    assert m'[q + i] == m'[q..q + bs[k].size][i] == Payload(m, bs[k])[i];
  }

  /** `is_valid` and `is_used`. */
  lemma MagicBits(w: nat)
    ensures IsValid(w) <==> w == 0x5d6d9cd6 || w == 0x5d6d9cd7
    ensures IsValid(w) ==> (IsUsed(w) <==> w == 0x5d6d9cd7)
  {
  }

  /** Block i's header, byte by byte: the magic number 0x5d6d9cd6 with the used bit, the size,
      the addresses of the next and of the previous header, each little-endian. */
  lemma LayoutMeans(m: seq<Byte>, bs: seq<Block>, i: nat)
    requires Layout(m, bs) && i < |bs|
    ensures bs[i].addr + 16 <= |m|
    ensures m[bs[i].addr..bs[i].addr + 4] == [if bs[i].used then 0xd7 else 0xd6, 0x9c, 0x6d, 0x5d]
    ensures LittleEndian(m[bs[i].addr + 4..bs[i].addr + 8], bs[i].size)
    ensures LittleEndian(m[bs[i].addr + 8..bs[i].addr + 12], if i + 1 < |bs| then bs[i + 1].addr else 0)
    ensures LittleEndian(m[bs[i].addr + 12..bs[i].addr + 16], if i > 0 then bs[i - 1].addr else 0)
  {
    var a := bs[i].addr;
    assert HeaderAt(m, a) == Expected(bs, i);
    hide Layout;
    MagicMeans(m, a, bs[i].used);
    WordMeans(m, a + 4);
    WordMeans(m, a + 8);
    WordMeans(m, a + 12);
  }

  ghost predicate LittleEndian(s: seq<Byte>, w: nat) {
    |s| == 4 && w == s[0] as int + 0x100 * s[1] as int + 0x1_0000 * s[2] as int + 0x100_0000 * s[3] as int
  }

  lemma WordMeans(m: seq<Byte>, a: nat)
    requires a + 4 <= |m|
    ensures LittleEndian(m[a..a + 4], Word(m, a))
  {
  }

  lemma MagicMeans(m: seq<Byte>, a: nat, used: bool)
    requires a + 4 <= |m| && Word(m, a) == MagicOf(used)
    ensures m[a..a + 4] == [if used then 0xd7 else 0xd6, 0x9c, 0x6d, 0x5d]
  {
  }

  /** Layout, except that the back link of block k + 1 may hold anything. */
  ghost predicate LayoutBut(m: seq<Byte>, bs: seq<Block>, k: nat) {
    && InMemory(m, bs)
    && (forall i {:trigger HeaderAt(m, bs[i].addr)} :: 0 <= i < |bs| && i != k + 1 ==>
          HeaderAt(m, bs[i].addr) == Expected(bs, i))
    && (k + 1 < |bs| ==>
          HeaderAt(m, bs[k + 1].addr) == Expected(bs, k + 1).(previous := HeaderAt(m, bs[k + 1].addr).previous))
  }

  function Payload(m: seq<Byte>, b: Block): seq<Byte>
    requires b.End() <= |m|
  {
    m[b.Data()..b.End()]
  }

  ghost predicate SamePayloads(m: seq<Byte>, m': seq<Byte>, bs: seq<Block>) {
    && |m'| == |m| && InMemory(m, bs)
    && forall i :: 0 <= i < |bs| ==> Payload(m', bs[i]) == Payload(m, bs[i])
  }

  ghost predicate SameOutside(m: seq<Byte>, m': seq<Byte>, start: nat, end: nat) {
    && |m'| == |m|
    && forall x :: 0 <= x < |m| && (x < start || end <= x) ==> m'[x] == m[x]
  }

  /** The payload of every live block is the same, and so is all memory outside the heap. */
  ghost predicate KeepsLive(m: seq<Byte>, m': seq<Byte>, live: set<Block>, start: nat, end: nat) {
    && SameOutside(m, m', start, end)
    && forall b :: b in live ==> b.End() <= |m| && Payload(m', b) == Payload(m, b)
  }

  /** Block k's payload is found again, unchanged, at q; every other live payload is kept. */
  ghost predicate Carried(m: seq<Byte>, m': seq<Byte>, bs: seq<Block>, k: nat, q: nat, start: nat, end: nat)
    requires k < |bs|
  {
    && KeepsLive(m, m', Live(bs) - {bs[k]}, start, end)
    && bs[k].End() <= |m| && q + bs[k].size <= |m'|
    && m'[q..q + bs[k].size] == Payload(m, bs[k])
  }

  /** Memory went from m over a copy of block j's payload into block l to m', where block j is gone. */
  ghost predicate CopiedAndFreed(m: seq<Byte>, m': seq<Byte>, bs: seq<Block>, j: nat, l: nat, start: nat, end: nat)
    requires j < |bs| && l < |bs| && bs[j].End() <= |m|
  {
    exists copy: seq<Byte> ::
      && KeepsLive(m, copy, Live(bs) - {bs[l]}, start, end)
      && bs[l].Data() + bs[j].size <= |copy|
      && copy[bs[l].Data()..bs[l].Data() + bs[j].size] == Payload(m, bs[j])
      && KeepsLive(copy, m', Live(bs) - {bs[j]}, start, end)
  }

  lemma CopiedWitness(m: seq<Byte>, copy: seq<Byte>, m': seq<Byte>, bs: seq<Block>, j: nat, l: nat, start: nat,
                      end: nat)
    requires j < |bs| && l < |bs| && bs[j].End() <= |m| && bs[l].Data() + bs[j].size <= |copy|
    requires KeepsLive(m, copy, Live(bs) - {bs[l]}, start, end)
    requires copy[bs[l].Data()..bs[l].Data() + bs[j].size] == Payload(m, bs[j])
    requires KeepsLive(copy, m', Live(bs) - {bs[j]}, start, end)
    ensures CopiedAndFreed(m, m', bs, j, l, start, end)
  {
  }

  lemma KeepsLess(m: seq<Byte>, m': seq<Byte>, live: set<Block>, fewer: set<Block>, start: nat, end: nat)
    requires KeepsLive(m, m', live, start, end) && fewer <= live
    ensures KeepsLive(m, m', fewer, start, end)
  {
  }

  lemma KeepsThen(m: seq<Byte>, m': seq<Byte>, m'': seq<Byte>, live: set<Block>, start: nat, end: nat)
    requires KeepsLive(m, m', live, start, end) && KeepsLive(m', m'', live, start, end)
    ensures KeepsLive(m, m'', live, start, end)
  {
  }

  /** The first bytes of a payload that was kept. */
  lemma KeptPrefix(m: seq<Byte>, m': seq<Byte>, live: set<Block>, b: Block, len: nat, start: nat, end: nat)
    requires KeepsLive(m, m', live, start, end) && b in live && len <= b.size
    ensures b.End() <= |m| == |m'|
    ensures m'[b.Data()..b.Data() + len] == m[b.Data()..b.Data() + len]
  {
    assert Payload(m', b) == Payload(m, b);
    assert Payload(m', b)[..len] == m'[b.Data()..b.Data() + len];
    assert Payload(m, b)[..len] == m[b.Data()..b.Data() + len];
  }

  lemma KeptPayload(m: seq<Byte>, m': seq<Byte>, live: set<Block>, b: Block, start: nat, end: nat)
    requires KeepsLive(m, m', live, start, end) && b in live
    ensures b.End() <= |m| == |m'| && Payload(m', b) == Payload(m, b)
  {
  }

  // ---------- One header write ----------

  function WithField(h: Header, at: nat, w: nat): Header {
    if at == MAGIC_AT then h.(magic := w)
    else if at == SIZE_AT then h.(size := w)
    else if at == NEXT_AT then h.(next := w)
    else h.(previous := w)
  }

  predicate IsField(at: nat) { at == MAGIC_AT || at == SIZE_AT || at == NEXT_AT || at == PREVIOUS_AT }

  lemma HeaderSame(m: seq<Byte>, m': seq<Byte>, a: nat)
    requires a + HEADER <= |m| && |m'| == |m|
    requires forall x :: a <= x < a + HEADER ==> m'[x] == m[x]
    ensures HeaderAt(m', a) == HeaderAt(m, a)
  {
  }

  lemma FieldWriteHere(m: seq<Byte>, m': seq<Byte>, a: nat, at: nat, w: nat)
    requires a + HEADER <= |m| && IsField(at) && Stored(m, m', a + at, w)
    ensures HeaderAt(m', a) == WithField(HeaderAt(m, a), at, w)
  {
  }

  predicate Apart(a: nat, b: nat) { a + HEADER <= b || b + HEADER <= a }

  /** Bytes differ at most inside the headers at a, b and c. */
  ghost predicate OnlyAt(m: seq<Byte>, m': seq<Byte>, a: nat, b: nat, c: nat) {
    && |m'| == |m|
    && forall x :: 0 <= x < |m|
         && (x < a || a + HEADER <= x) && (x < b || b + HEADER <= x) && (x < c || c + HEADER <= x)
         ==> m'[x] == m[x]
  }

  lemma HeaderFrame(m: seq<Byte>, m': seq<Byte>, a: nat, b: nat, c: nat, d: nat)
    requires OnlyAt(m, m', a, b, c) && d + HEADER <= |m| && Apart(a, d) && Apart(b, d) && Apart(c, d)
    ensures HeaderAt(m', d) == HeaderAt(m, d)
  {
  }

  /** The header at a lies outside the block's payload. */
  predicate Clear(block: Block, a: nat) { block.End() <= a || a + HEADER <= block.Data() }

  lemma PayloadFrame(m: seq<Byte>, m': seq<Byte>, a: nat, b: nat, c: nat, block: Block)
    requires OnlyAt(m, m', a, b, c) && block.End() <= |m|
    requires Clear(block, a) && Clear(block, b) && Clear(block, c)
    ensures Payload(m', block) == Payload(m, block)
  {
  }

  /** If only bytes of the headers of blocks h, i and j differ, no other header, no payload
      and nothing outside the heap differs. */
  lemma HeadersFrame(m: seq<Byte>, m': seq<Byte>, bs: seq<Block>, h: nat, i: nat, j: nat, start: nat, end: nat)
    requires Tiles(bs, start, end) && end <= |m| && h < |bs| && i < |bs| && j < |bs|
    requires OnlyAt(m, m', bs[h].addr, bs[i].addr, bs[j].addr)
    ensures SamePayloads(m, m', bs) && SameOutside(m, m', start, end)
    ensures forall l {:trigger HeaderAt(m', bs[l].addr)} :: 0 <= l < |bs| && l != h && l != i && l != j ==>
              HeaderAt(m', bs[l].addr) == HeaderAt(m, bs[l].addr)
  {
    hide HeaderAt, Payload;
    Bounds(bs, start, end);
    forall l | 0 <= l < |bs| && l != h && l != i && l != j
      ensures HeaderAt(m', bs[l].addr) == HeaderAt(m, bs[l].addr)
    {
      HeaderFrame(m, m', bs[h].addr, bs[i].addr, bs[j].addr, bs[l].addr);
    }
    forall l | 0 <= l < |bs| ensures Payload(m', bs[l]) == Payload(m, bs[l]) {
      PayloadFrame(m, m', bs[h].addr, bs[i].addr, bs[j].addr, bs[l]);
    }
  }

  // ---------- The layout after a merge and after a split ----------

  lemma MergeExpected(bs: seq<Block>, k: nat, i: nat)
    requires k + 1 < |bs| && i + 1 < |bs|
    ensures var r := Merge(bs, k); var size := bs[k].size + HEADER + bs[k + 1].size;
            && |r| == |bs| - 1
            && r[i] == (if i < k then bs[i] else if i == k then bs[k].(size := size) else bs[i + 1])
            && Expected(r, i) ==
                 if i < k then Expected(bs, i)
                 else if i == k then Header(MagicOf(bs[k].used), size, NextOf(bs, k + 1), PreviousOf(bs, k))
                 else if i == k + 1 then Expected(bs, k + 2).(previous := bs[k].addr)
                 else Expected(bs, i + 1)
  {
  }

  lemma MergeLayout(m: seq<Byte>, m': seq<Byte>, bs: seq<Block>, k: nat)
    requires Layout(m, bs) && k + 1 < |bs| && |m'| == |m| && bs[k].End() == bs[k + 1].addr
    requires forall j {:trigger HeaderAt(m', bs[j].addr)} :: 0 <= j < |bs| && j != k && j != k + 2 ==>
               HeaderAt(m', bs[j].addr) == HeaderAt(m, bs[j].addr)
    requires HeaderAt(m', bs[k].addr)
          == Header(MagicOf(bs[k].used), bs[k].size + HEADER + bs[k + 1].size, NextOf(bs, k + 1), PreviousOf(bs, k))
    requires k + 2 < |bs| ==> HeaderAt(m', bs[k + 2].addr) == Expected(bs, k + 2).(previous := bs[k].addr)
    ensures Layout(m', Merge(bs, k))
  {
    hide HeaderAt;
    var r := Merge(bs, k);
    forall i | 0 <= i < |r|
      ensures r[i].End() <= |m'| && HeaderAt(m', r[i].addr) == Expected(r, i)
    {
      MergeExpected(bs, k, i);
    }
  }

  lemma SplitExpected(bs: seq<Block>, k: nat, n: nat, i: nat)
    requires k < |bs| && n + HEADER <= bs[k].size && i <= |bs|
    ensures var r := Split(bs, k, n); var rest := bs[k].addr + HEADER + n;
            && |r| == |bs| + 1
            && r[i] == (if i < k then bs[i] else if i == k then Block(bs[k].addr, n, true)
                        else if i == k + 1 then Block(rest, bs[k].size - n - HEADER, false) else bs[i - 1])
            && Expected(r, i) ==
                 if i < k then Expected(bs, i)
                 else if i == k then Header(MAGIC + 1, n, rest, PreviousOf(bs, k))
                 else if i == k + 1 then Header(MAGIC, bs[k].size - n - HEADER, NextOf(bs, k), bs[k].addr)
                 else if i == k + 2 then Expected(bs, k + 1).(previous := rest)
                 else Expected(bs, i - 1)
  {
  }

  lemma SplitLayout(m: seq<Byte>, m': seq<Byte>, bs: seq<Block>, k: nat, n: nat)
    requires LayoutBut(m, bs, k) && k < |bs| && n + HEADER <= bs[k].size && |m'| == |m|
    requires forall j {:trigger HeaderAt(m', bs[j].addr)} :: 0 <= j < |bs| && j != k && j != k + 1 ==>
               HeaderAt(m', bs[j].addr) == HeaderAt(m, bs[j].addr)
    requires var rest := bs[k].addr + HEADER + n;
          && HeaderAt(m', bs[k].addr) == Header(MAGIC + 1, n, rest, PreviousOf(bs, k))
          && HeaderAt(m', rest) == Header(MAGIC, bs[k].size - n - HEADER, NextOf(bs, k), bs[k].addr)
          && (k + 1 < |bs| ==> HeaderAt(m', bs[k + 1].addr) == Expected(bs, k + 1).(previous := rest))
    ensures Layout(m', Split(bs, k, n))
  {
    hide HeaderAt;
    var r := Split(bs, k, n);
    forall i | 0 <= i < |r|
      ensures r[i].End() <= |m'| && HeaderAt(m', r[i].addr) == Expected(r, i)
    {
      SplitExpected(bs, k, n, i);
    }
  }

  /** The links determine the list: two block lists over one region that both agree with
      the headers' magic, size and next fields are the same list. */
  ghost predicate Forward(m: seq<Byte>, bs: seq<Block>) {
    && InMemory(m, bs)
    && forall i {:trigger HeaderAt(m, bs[i].addr)} :: 0 <= i < |bs| ==>
         HeaderAt(m, bs[i].addr) == Expected(bs, i).(previous := HeaderAt(m, bs[i].addr).previous)
  }

  /** The blocks of ds chain up in memory; the last one's next field does not matter. */
  ghost predicate Chain(m: seq<Byte>, ds: seq<Block>) {
    forall i {:trigger HeaderAt(m, ds[i].addr)} :: 0 <= i < |ds| ==>
      && ds[i].Data() <= |m|
      && HeaderAt(m, ds[i].addr).magic == MagicOf(ds[i].used) && HeaderAt(m, ds[i].addr).size == ds[i].size
      && (i + 1 < |ds| ==> HeaderAt(m, ds[i].addr).next == NextOf(ds, i) > 0)
  }

  /** A list laid out in memory follows every chain that starts where it starts. */
  lemma {:induction false} ChainSame(m: seq<Byte>, ds: seq<Block>, cs: seq<Block>, start: nat, end: nat, i: nat)
    requires Tiles(cs, start, end) && Forward(m, cs) && Chain(m, ds) && i < |ds| && ds[0].addr == start
    ensures i < |cs| && ds[i] == cs[i]
  {
    hide HeaderAt;
    if i > 0 {
      ChainSame(m, ds, cs, start, end, i - 1);
      assert HeaderAt(m, ds[i - 1].addr).next == NextOf(ds, i - 1) == ds[i].addr;
      assert HeaderAt(m, cs[i - 1].addr).next == NextOf(cs, i - 1);
    }
    assert HeaderAt(m, cs[i].addr).magic == MagicOf(cs[i].used);
    assert HeaderAt(m, ds[i].addr).magic == MagicOf(ds[i].used);
  }

  lemma ForwardChain(m: seq<Byte>, bs: seq<Block>, start: nat, end: nat)
    requires 0 < start && Tiles(bs, start, end) && Forward(m, bs)
    ensures Chain(m, bs)
  {
    hide HeaderAt;
    Bounds(bs, start, end);
    forall i | 0 <= i < |bs|
      ensures bs[i].Data() <= |m|
      ensures HeaderAt(m, bs[i].addr).magic == MagicOf(bs[i].used) && HeaderAt(m, bs[i].addr).size == bs[i].size
      ensures i + 1 < |bs| ==> HeaderAt(m, bs[i].addr).next == NextOf(bs, i) > 0
    {
      assert HeaderAt(m, bs[i].addr) == Expected(bs, i).(previous := HeaderAt(m, bs[i].addr).previous);
    }
  }

  lemma ForwardUnique(m: seq<Byte>, bs: seq<Block>, cs: seq<Block>, start: nat, end: nat)
    requires 0 < start && Tiles(bs, start, end) && Tiles(cs, start, end) && Forward(m, bs) && Forward(m, cs)
    ensures bs == cs
  {
    hide HeaderAt, Forward, Chain;
    ForwardChain(m, bs, start, end);
    ForwardChain(m, cs, start, end);
    forall i | 0 <= i < |bs| ensures i < |cs| && bs[i] == cs[i] {
      ChainSame(m, bs, cs, start, end, i);
    }
    ChainSame(m, cs, bs, start, end, |cs| - 1);
  }

  /** Memory holds a well-formed heap over the region. */
  ghost predicate HoldsHeap(m: seq<Byte>, start: nat, end: nat) {
    exists bs :: Tiles(bs, start, end) && Layout(m, bs)
  }

  /** The memory determines the block list. */
  lemma LayoutUnique(m: seq<Byte>, bs: seq<Block>, cs: seq<Block>, start: nat, end: nat)
    requires 0 < start && Tiles(bs, start, end) && Tiles(cs, start, end) && Layout(m, bs) && Layout(m, cs)
    ensures bs == cs
  {
    hide HeaderAt;
    ForwardUnique(m, bs, cs, start, end);
  }
}
