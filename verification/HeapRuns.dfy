/** Runs of the heap with the memory they act on: what a client's buffer still holds after
    any number of heap operations. */
module HeapRuns {
  import opened Wrappers
  import opened Memory
  import opened HeapBlocks
  import opened HeapTheorems
  import opened HeapMemory
  import opened KernelHeap
  import opened AlignedHeap
  import opened OverlappedHeap

  /** Memory and the block list it holds. */
  datatype Snapshot = Snapshot(mem: seq<Byte>, blocks: seq<Block>)

  /** What the methods of the heap class promise: `q` is the returned pointer. */
  ghost predicate Step(s: Snapshot, op: Op, q: nat, s': Snapshot, start: nat, end: nat) {
    match op
    case OpAlloc(n) =>
      AllocStep(s.blocks, n, s'.blocks, q) && KeepsLive(s.mem, s'.mem, Live(s.blocks), start, end)
    case OpFree(p) =>
      FreeStep(s.blocks, p, s'.blocks) && KeepsLive(s.mem, s'.mem, Live(s'.blocks), start, end)
    case OpRealloc(p, n) =>
      exists k: nat :: k < |s.blocks| && s.blocks[k].used && s.blocks[k].Data() == p
                       && ReallocAt(s.blocks, k, n, s'.blocks, q) && Carried(s.mem, s'.mem, s.blocks, k, q, start, end)
  }

  /** The buffer of at least len bytes at address a is live and starts with content. */
  ghost predicate Holds(s: Snapshot, a: nat, content: seq<Byte>) {
    exists b :: b in Live(s.blocks) && b.Data() == a && |content| <= b.size
                && a + |content| <= |s.mem| && s.mem[a..a + |content|] == content
  }

  /** Where a buffer is after one operation: only its own `krealloc` moves it. */
  function Moved(a: nat, op: Op, q: nat): nat {
    if op.OpRealloc? && op.p == a then q else a
  }

  lemma HeldByKept(s: Snapshot, s': Snapshot, b: Block, content: seq<Byte>, live: set<Block>, start: nat, end: nat)
    requires KeepsLive(s.mem, s'.mem, live, start, end) && b in live && b in Live(s'.blocks)
    requires |content| <= b.size && b.Data() + |content| <= |s.mem| && s.mem[b.Data()..b.Data() + |content|] == content
    ensures Holds(s', b.Data(), content)
  {
    hide KeepsLive, Live;
    KeptPrefix(s.mem, s'.mem, live, b, |content|, start, end);
  }

  lemma Prefix(m: seq<Byte>, a: nat, size: nat, len: nat)
    requires len <= size && a + size <= |m|
    ensures m[a..a + size][..len] == m[a..a + len]
  {
  }

  /** A buffer that `krealloc` was given holds its content at the new address. */
  lemma HeldByCarried(s: Snapshot, s': Snapshot, k: nat, q: nat, c: Block, content: seq<Byte>, start: nat, end: nat)
    requires k < |s.blocks| && Carried(s.mem, s'.mem, s.blocks, k, q, start, end)
    requires c in Live(s'.blocks) && c.Data() == q && s.blocks[k].size <= c.size
    requires var b := s.blocks[k]; |content| <= b.size && s.mem[b.Data()..b.Data() + |content|] == content
    ensures Holds(s', q, content)
  {
    hide KeepsLive, Live;
    var b := s.blocks[k];
    Prefix(s.mem, b.Data(), b.size, |content|);
    Prefix(s'.mem, q, b.size, |content|);
    assert b.End() == b.Data() + b.size;
  }

  /** One operation other than freeing the buffer. */
  lemma StepHolds(s: Snapshot, op: Op, q: nat, s': Snapshot, a: nat, content: seq<Byte>, start: nat, end: nat)
    requires HeapShape(s.blocks, start, end) && Step(s, op, q, s', start, end)
    requires Holds(s, a, content) && op != OpFree(a)
    ensures HeapShape(s'.blocks, start, end) && Holds(s', Moved(a, op, q), content)
  {
    hide KeepsLive, Live, AllocStep, FreeStep, ReallocAt, Carried, Coalesced;
    var b :| b in Live(s.blocks) && b.Data() == a && |content| <= b.size
             && a + |content| <= |s.mem| && s.mem[a..a + |content|] == content;
    LiveMember(s.blocks, b);
    match op
    case OpAlloc(n) =>
      var c := AllocKeeps(s.blocks, n, s'.blocks, q, start, end);
      HeldByKept(s, s', b, content, Live(s.blocks), start, end);
    case OpFree(p) =>
      var c := FreeKeeps(s.blocks, p, s'.blocks, start, end);
      HeldByKept(s, s', b, content, Live(s'.blocks), start, end);
    case OpRealloc(p, n) =>
      var k: nat :| k < |s.blocks| && s.blocks[k].used && s.blocks[k].Data() == p
                    && ReallocAt(s.blocks, k, n, s'.blocks, q) && Carried(s.mem, s'.mem, s.blocks, k, q, start, end);
      var before, after := ReallocKeeps(s.blocks, p, n, s'.blocks, q, start, end);
      LiveMember(s.blocks, before);
      SameBlock(s.blocks, start, end, before, s.blocks[k]);
      if p == a {
        SameBlock(s.blocks, start, end, b, s.blocks[k]);
        HeldByCarried(s, s', k, q, after, content, start, end);
      } else {
        CarriedOthers(s, s', k, q, start, end);
        HeldByKept(s, s', b, content, Live(s.blocks) - {s.blocks[k]}, start, end);
      }
  }

  lemma CarriedOthers(s: Snapshot, s': Snapshot, k: nat, q: nat, start: nat, end: nat)
    requires k < |s.blocks| && Carried(s.mem, s'.mem, s.blocks, k, q, start, end)
    ensures KeepsLive(s.mem, s'.mem, Live(s.blocks) - {s.blocks[k]}, start, end)
  {
  }

  // ---------- Page-aligned allocations that keep the heap ----------

  /** A page-aligned allocation that settles on a block meeting the condition. */
  ghost predicate AlignedStep(s: Snapshot, n: nat, q: nat, s': Snapshot, start: nat, end: nat) {
    exists k: nat :: AlignedFrom(s, n, q, s', k, start, end)
  }

  ghost predicate AlignedFrom(s: Snapshot, n: nat, q: nat, s': Snapshot, k: nat, start: nat, end: nat) {
    && AlignedChoice(s.blocks, n, k) && !AlignedRefused(s.blocks, k, n) && AlignedOk(s.blocks, k, n)
    && s'.blocks == AlignedResult(s.blocks, k, n) && q == s.blocks[k].Data() + ShiftOf(s.blocks[k])
    && KeepsLive(s.mem, s'.mem, Live(s.blocks), start, end)
  }

  /** It keeps every buffer, also the predecessor's, whose block has grown. */
  lemma AlignedHolds(s: Snapshot, n: nat, q: nat, s': Snapshot, a: nat, content: seq<Byte>, start: nat, end: nat)
    requires HeapShape(s.blocks, start, end) && AlignedStep(s, n, q, s', start, end) && Holds(s, a, content)
    ensures HeapShape(s'.blocks, start, end) && Holds(s', a, content)
  {
    hide KeepsLive, Live, AlignedChoice, AlignedRefused, AlignedOk, AlignedResult, Coalesced, ShiftOf;
    var k: nat :| AlignedFrom(s, n, q, s', k, start, end);
    var b :| b in Live(s.blocks) && b.Data() == a && |content| <= b.size
             && a + |content| <= |s.mem| && s.mem[a..a + |content|] == content;
    AlignedFree(s.blocks, n, k);
    var added := AlignedKeeps(s.blocks, k, n, start, end);
    KeptPrefix(s.mem, s'.mem, Live(s.blocks), b, |content|, start, end);
    var p := s.blocks[k - 1];
    var grown := p.(size := p.size + ShiftOf(s.blocks[k]));
    var c := if b == p then grown else b;
    assert c in Live(s'.blocks) && c.Data() == a && |content| <= c.size;
  }

  lemma AlignedFree(bs: seq<Block>, n: nat, k: nat)
    requires AlignedChoice(bs, n, k)
    ensures k < |bs| && !bs[k].used && (AlignedOk(bs, k, n) ==> 0 < k)
  {
  }

  // ---------- Clients store into their buffers ----------

  /** What happens in a run: a heap operation, a page-aligned allocation that meets its
      condition, or a client's store. */
  datatype Event = Call(op: Op) | CallAligned(n: nat) | Store(at: nat, data: seq<Byte>)

  /** A client stores data somewhere in the payload of a live block. */
  ghost predicate Stores(s: Snapshot, at: nat, data: seq<Byte>, s': Snapshot) {
    && (exists b :: b in Live(s.blocks) && b.Data() <= at && at + |data| <= b.End())
    && s'.blocks == s.blocks && at + |data| <= |s.mem|
    && s'.mem == s.mem[..at] + data + s.mem[at + |data|..]
  }

  ghost predicate Happens(s: Snapshot, e: Event, q: nat, s': Snapshot, start: nat, end: nat) {
    match e
    case Call(op) => Step(s, op, q, s', start, end)
    case CallAligned(n) => AlignedStep(s, n, q, s', start, end)
    case Store(at, data) => Stores(s, at, data, s')
  }

  /** The event does not free the buffer at a and does not store into its first len bytes. */
  predicate Spares(e: Event, a: nat, len: nat) {
    match e
    case Call(op) => op != OpFree(a)
    case CallAligned(_) => true
    case Store(at, data) => at + |data| <= a || a + len <= at
  }

  function MovedBy(a: nat, e: Event, q: nat): nat { if e.Call? then Moved(a, e.op, q) else a }

  lemma StoredBytes(m: seq<Byte>, at: nat, data: seq<Byte>, lo: nat, hi: nat)
    requires at + |data| <= |m| && lo <= hi <= |m| && (hi <= at || at + |data| <= lo)
    ensures var m' := m[..at] + data + m[at + |data|..];
            |m'| == |m| && m'[lo..hi] == m[lo..hi] && forall x :: lo <= x < hi ==> m'[x] == m[x]
  {
  }

  /** A store into a payload leaves every header, and so the whole heap, as it is. */
  lemma StoreKeepsHeap(s: Snapshot, at: nat, data: seq<Byte>, s': Snapshot, start: nat, end: nat)
    requires Tiles(s.blocks, start, end) && Layout(s.mem, s.blocks) && Stores(s, at, data, s')
    ensures Layout(s'.mem, s'.blocks)
  {
    hide HeaderAt, Expected;
    var b :| b in Live(s.blocks) && b.Data() <= at && at + |data| <= b.End();
    LiveMember(s.blocks, b);
    var j :| 0 <= j < |s.blocks| && s.blocks[j] == b;
    Bounds(s.blocks, start, end);
    forall i | 0 <= i < |s.blocks|
      ensures s.blocks[i].End() <= |s'.mem| && HeaderAt(s'.mem, s.blocks[i].addr) == HeaderAt(s.mem, s.blocks[i].addr)
    {
      StoredBytes(s.mem, at, data, s.blocks[i].addr, s.blocks[i].addr + HEADER);
      HeaderSame(s.mem, s'.mem, s.blocks[i].addr);
    }
  }

  lemma EventHolds(s: Snapshot, e: Event, q: nat, s': Snapshot, a: nat, content: seq<Byte>, start: nat, end: nat)
    requires HeapShape(s.blocks, start, end) && Happens(s, e, q, s', start, end)
    requires Holds(s, a, content) && Spares(e, a, |content|)
    ensures HeapShape(s'.blocks, start, end) && Holds(s', MovedBy(a, e, q), content)
  {
    hide Step, AlignedStep, HeapShape, Live;
    match e
    case Call(op) => StepHolds(s, op, q, s', a, content, start, end);
    case CallAligned(n) => AlignedHolds(s, n, q, s', a, content, start, end);
    case Store(at, data) => StoredBytes(s.mem, at, data, a, a + |content|);
  }

  ghost predicate MemoryRun(states: seq<Snapshot>, events: seq<Event>, results: seq<nat>, start: nat, end: nat) {
    && |states| == |events| + 1 && |results| == |events|
    && HeapShape(states[0].blocks, start, end)
    && forall i :: 0 <= i < |events| ==> Happens(states[i], events[i], results[i], states[i + 1], start, end)
  }

  /** addrs follows one buffer of len bytes through a run that never frees it and never
      stores into those bytes. */
  ghost predicate Follows(addrs: seq<nat>, len: nat, events: seq<Event>, results: seq<nat>) {
    && |addrs| == |events| + 1 && |results| == |events|
    && forall i :: 0 <= i < |events| ==>
         Spares(events[i], addrs[i], len) && addrs[i + 1] == MovedBy(addrs[i], events[i], results[i])
  }

  /** Whatever else is allocated, freed, reallocated and stored into, a buffer that is not
      freed is live at the address its last `krealloc` returned, and still starts with the
      content that nobody stored over. */
  lemma {:induction false} BufferSurvives(states: seq<Snapshot>, events: seq<Event>, results: seq<nat>, addrs: seq<nat>,
                                          content: seq<Byte>, start: nat, end: nat, i: nat)
    requires MemoryRun(states, events, results, start, end) && Follows(addrs, |content|, events, results)
    requires Holds(states[0], addrs[0], content) && i <= |events|
    ensures HeapShape(states[i].blocks, start, end) && Holds(states[i], addrs[i], content)
  {
    hide Happens, HeapShape, Holds;
    if i > 0 {
      BufferSurvives(states, events, results, addrs, content, start, end, i - 1);
      EventHolds(states[i - 1], events[i - 1], results[i - 1], states[i], addrs[i - 1], content, start, end);
    }
  }

  lemma StepIsHeapStep(s: Snapshot, op: Op, q: nat, s': Snapshot, start: nat, end: nat)
    requires Step(s, op, q, s', start, end)
    ensures HeapStep(s.blocks, op, s'.blocks)
  {
    hide AllocStep, FreeStep, ReallocAt, KeepsLive, Carried;
    match op
    case OpAlloc(n) => assert AllocStep(s.blocks, n, s'.blocks, q);
    case OpFree(p) =>
    case OpRealloc(p, n) => assert ReallocStep(s.blocks, p, n, s'.blocks, q);
  }

  lemma EventKeeps(s: Snapshot, e: Event, q: nat, s': Snapshot, start: nat, end: nat)
    requires HeapShape(s.blocks, start, end) && Happens(s, e, q, s', start, end)
    ensures HeapShape(s'.blocks, start, end)
  {
    hide HeapShape, AllocStep, FreeStep, ReallocAt, KeepsLive, Carried, AlignedChoice, AlignedOk, AlignedResult;
    match e
    case Call(op) =>
      StepIsHeapStep(s, op, q, s', start, end);
      StepKeeps(s.blocks, op, s'.blocks, start, end);
    case CallAligned(n) =>
      var k: nat :| AlignedFrom(s, n, q, s', k, start, end);
      AlignedFree(s.blocks, n, k);
      var b := AlignedKeeps(s.blocks, k, n, start, end);
    case Store(at, data) =>
  }

  /** Every state of such a run tiles the region, is coalesced and conserves its bytes. */
  lemma {:induction false} MemoryRunKeeps(states: seq<Snapshot>, events: seq<Event>, results: seq<nat>,
                                          start: nat, end: nat, i: nat)
    requires MemoryRun(states, events, results, start, end) && i <= |events|
    ensures HeapShape(states[i].blocks, start, end) && Sizes(states[i].blocks) == end - start
  {
    hide Happens, Coalesced, Sizes;
    if i > 0 {
      MemoryRunKeeps(states, events, results, start, end, i - 1);
      EventKeeps(states[i - 1], events[i - 1], results[i - 1], states[i], start, end);
    }
    TotalConserved(states[i].blocks, start, end);
  }

  // ---------- The methods take these steps ----------

  ghost function StateOf(h: Heap): Snapshot
    reads h, h.mem
  {
    Snapshot(h.mem[..], h.blocks)
  }

  method Allocate(h: Heap, n: nat) returns (r: Outcome<nat>)
    requires h.Valid() && n < WORD
    modifies h`blocks, h.mem
    ensures h.Valid()
    ensures r.Done? ==>
              Happens(old(StateOf(h)), Call(OpAlloc(n)), r.value, StateOf(h), h.firstBlock, h.EndOfHeap())
  {
    hide AllocStep, KeepsLive, Live, Fits;
    r := h.AllocInternal(n);
  }

  method Release(h: Heap, p: nat)
    requires h.Valid() && h.Known(p) && h.IsBlock(p)
    modifies h`blocks, h.mem
    ensures h.Valid()
    ensures Happens(old(StateOf(h)), Call(OpFree(p)), 0, StateOf(h), h.firstBlock, h.EndOfHeap())
  {
    hide FreeStep, KeepsLive, Live;
    var returned := h.Free(p);
  }

  method Reallocate(h: Heap, p: nat, n: nat) returns (r: Outcome<nat>)
    requires h.Valid() && h.KnownLive(p) && n < WORD
    modifies h`blocks, h.mem
    ensures h.Valid()
    ensures r.Done? ==>
              Happens(old(StateOf(h)), Call(OpRealloc(p, n)), r.value, StateOf(h), h.firstBlock, h.EndOfHeap())
  {
    hide ReallocAt, Carried, ReallocHalts;
    r := h.Krealloc(p, n);
    if r.Done? {
      ghost var k: nat :| k < |old(h.blocks)| && old(h.blocks)[k].used && old(h.blocks)[k].Data() == p
                          && ReallocAt(old(h.blocks), k, n, h.blocks, r.value);
    }
  }

  method AllocateAligned(h: Heap, n: nat) returns (r: Outcome<nat>, ghost k: nat)
    requires h.Valid() && n < WORD && Roomy(h)
    requires forall b: nat :: AlignedChoice(h.blocks, n, b) && Overlapping(h.blocks, b, n) ==>
               KernelRegion(h.mem[..], h.firstBlock, h.EndOfHeap())
    modifies h`blocks, h.mem
    ensures r.Done? ==> k < |old(h.blocks)|
    ensures r.Done? && AlignedOk(old(h.blocks), k, n) ==>
              h.Valid()
              && Happens(old(StateOf(h)), CallAligned(n), r.value, StateOf(h), h.firstBlock, h.EndOfHeap())
  {
    hide KeepsLive, Live, Layout, HoldsHeap, Overlapping;
    ghost var s := StateOf(h);
    r, k := AllocAligned(h, n);
    if r.Done? && AlignedOk(s.blocks, k, n) {
      assert AlignedFrom(s, n, r.value, StateOf(h), k, h.firstBlock, h.EndOfHeap());
    }
  }

  /** A client stores data into a live block of its own. */
  method StoreInto(h: Heap, at: nat, data: seq<Byte>, ghost b: Block)
    requires h.Valid() && b in Live(h.blocks) && b.Data() <= at && at + |data| <= b.End()
    modifies h.mem
    ensures h.Valid()
    ensures Happens(old(StateOf(h)), Store(at, data), 0, StateOf(h), h.firstBlock, h.EndOfHeap())
  {
    ghost var s := StateOf(h);
    BlockInMemory(h, b);
    hide Layout, Live, HeapShape, Tiles, Coalesced;
    for i := 0 to |data|
      invariant forall j :: 0 <= j < h.mem.Length ==> h.mem[j] == if at <= j < at + i then data[j - at] else s.mem[j]
    {
      h.mem[at + i] := data[i];
    }
    assert h.mem[..] == s.mem[..at] + data + s.mem[at + |data|..];
    assert Stores(s, at, data, StateOf(h));
    StoreKeepsHeap(s, at, data, StateOf(h), h.firstBlock, h.EndOfHeap());
  }

  lemma BlockInMemory(h: Heap, b: Block)
    requires h.Valid() && b in Live(h.blocks)
    ensures b.End() <= h.mem.Length
  {
    Bounds(h.blocks, h.firstBlock, h.EndOfHeap());
  }
}
