/** Page tables and the range allocator (kernel/page.cpp:60-72, 169-204). */
module Paging {
  import opened Wrappers
  import opened Memory
  import opened Frames

  const PAGE_SIZE: nat := 0x1000
  const ENTRIES: nat := 1024
  const PAGES: nat := 0x10_0000      // pages of a 32-bit address space

  /** `struct page` */
  datatype Page = Page(present: bool, rw: bool, user: bool, accessed: bool, dirty: bool, unused: nat, frame: nat)

  const ZERO_PAGE := Page(false, false, false, false, false, 0, 0)

  // ---------- The allocator on values ----------

  /** The marked frames and the entries of one directory, by page number. */
  datatype State = State(marked: set<nat>, pages: seq<Page>)

  function Mapped(p: Page, frame: nat, isKernel: bool, isWritable: bool): Page {
    p.(present := true, rw := isWritable, user := !isKernel, frame := frame)
  }

  /** `alloc_frame` on entry v: nothing when it has a frame, else the first free one. */
  function AllocPage(s: State, v: nat, isKernel: bool, isWritable: bool): State
    requires v < |s.pages|
  {
    if s.pages[v].frame != 0 then s else
    var f := FirstFree(s.marked);
    State(s.marked + {f}, s.pages[v := Mapped(s.pages[v], f, isKernel, isWritable)])
  }

  function AllocRange(s: State, lo: nat, hi: nat, isKernel: bool, isWritable: bool): (r: State)
    requires lo <= hi <= |s.pages|
    ensures |r.pages| == |s.pages|
  {
    if lo == hi then s
    else AllocPage(AllocRange(s, lo, hi - 1, isKernel, isWritable), hi - 1, isKernel, isWritable)
  }

  function Unmapped(pages: seq<Page>, lo: nat, hi: nat): nat
    requires lo <= hi <= |pages|
  {
    if lo == hi then 0 else Unmapped(pages, lo, hi - 1) + if pages[hi - 1].frame == 0 then 1 else 0
  }

  lemma {:induction false} UnmappedMeans(pages: seq<Page>, lo: nat, hi: nat)
    requires lo <= hi <= |pages|
    ensures Unmapped(pages, lo, hi) == |set v | lo <= v < hi && pages[v].frame == 0|
  {
    if lo < hi {
      UnmappedMeans(pages, lo, hi - 1);
      var before, all := set v | lo <= v < hi - 1 && pages[v].frame == 0, set v | lo <= v < hi && pages[v].frame == 0;
      assert all == if pages[hi - 1].frame == 0 then before + {hi - 1} else before;
    }
  }

  /** The bitset tracks existing frames and frame 0 is never handed out. */
  ghost predicate Tracked(marked: set<nat>) {
    0 in marked && forall f: nat :: f in marked ==> f < NFRAMES
  }

  function Below(n: nat): (s: set<nat>)
    ensures |s| == n && forall f: nat :: f in s <==> f < n
  {
    if n == 0 then {} else Below(n - 1) + {n - 1}
  }

  function FreeFrames(marked: set<nat>): int { NFRAMES - |marked| }

  /** Frame 0 comes back exactly when no frame is free. */
  lemma FirstFreeZero(marked: set<nat>)
    requires Tracked(marked)
    ensures FreeFrames(marked) >= 0
    ensures FirstFree(marked) == 0 <==> FreeFrames(marked) == 0
    ensures FirstFree(marked) != 0 ==> FirstFree(marked) !in marked && FirstFree(marked) < NFRAMES
  {
    var all := Below(NFRAMES);
    assert marked <= all;
    SubsetSize(marked, all);
    if FreeFrames(marked) == 0 {
      SubsetFull(marked, all);
    } else {
      assert marked != all;
    }
  }

  lemma {:induction false} SubsetSize(a: set<nat>, b: set<nat>)
    requires a <= b
    ensures |a| <= |b|
  {
    assert b == a + (b - a);
  }

  lemma SubsetFull(a: set<nat>, b: set<nat>)
    requires a <= b && |a| == |b|
    ensures a == b
  {
    assert b == a + (b - a);
    assert |b - a| == 0;
  }

  /** What changed from pages to pages' by handing out frames: an entry keeps a frame it has,
      or is filled in with a frame that was free. */
  ghost predicate Filled(s: State, r: State, lo: nat, hi: nat, isKernel: bool, isWritable: bool) {
    && |r.pages| == |s.pages| && Tracked(r.marked) && s.marked <= r.marked
    && forall v :: 0 <= v < |s.pages| ==>
         if v < lo || hi <= v || s.pages[v].frame != 0 then r.pages[v] == s.pages[v]
         else r.pages[v] == Mapped(s.pages[v], r.pages[v].frame, isKernel, isWritable)
              && (r.pages[v].frame != 0 ==> r.pages[v].frame in r.marked && r.pages[v].frame !in s.marked)
  }

  /** No frame was handed out twice. */
  ghost predicate NewDistinct(s: State, r: State, lo: nat, hi: nat)
    requires lo <= hi <= |s.pages| == |r.pages|
  {
    forall v, w :: lo <= v < w < hi && s.pages[v].frame == 0 && s.pages[w].frame == 0 && r.pages[v].frame != 0 ==> (
      r.pages[v].frame != r.pages[w].frame)
  }

  /** Every entry keeps a frame it has, or gets a frame that was free; no frame is handed out
      twice; entries outside the range are left alone. */
  lemma {:induction false} RangeEffect(s: State, lo: nat, hi: nat, isKernel: bool, isWritable: bool)
    requires lo <= hi <= |s.pages| && Tracked(s.marked)
    ensures var r := AllocRange(s, lo, hi, isKernel, isWritable);
            Filled(s, r, lo, hi, isKernel, isWritable) && NewDistinct(s, r, lo, hi)
  {
    hide FirstFree, AllocPage, Filled, NewDistinct;
    if lo < hi {
      RangeEffect(s, lo, hi - 1, isKernel, isWritable);
      PageEffect(s, AllocRange(s, lo, hi - 1, isKernel, isWritable), lo, hi, isKernel, isWritable);
    } else {
      NothingFilled(s, lo, isKernel, isWritable);
    }
  }

  /** What a range of pages gets: an entry with a frame, or outside the range, stays; any other
      becomes present, writable as asked, for users unless asked for the kernel, and keeps its
      accessed, dirty and unused bits. */
  lemma {:induction false} AccessBits(s: State, lo: nat, hi: nat, isKernel: bool, isWritable: bool)
    requires lo <= hi <= |s.pages|
    ensures var r := AllocRange(s, lo, hi, isKernel, isWritable);
            forall v :: 0 <= v < |s.pages| ==>
              if lo <= v < hi && s.pages[v].frame == 0
              then && r.pages[v].present && (r.pages[v].rw <==> isWritable) && (r.pages[v].user <==> !isKernel)
                   && r.pages[v].accessed == s.pages[v].accessed && r.pages[v].dirty == s.pages[v].dirty
                   && r.pages[v].unused == s.pages[v].unused
              else r.pages[v] == s.pages[v]
  {
    hide FirstFree;
    if lo < hi {
      AccessBits(s, lo, hi - 1, isKernel, isWritable);
    }
  }

  lemma NothingFilled(s: State, lo: nat, isKernel: bool, isWritable: bool)
    requires lo <= |s.pages| && Tracked(s.marked)
    ensures Filled(s, s, lo, lo, isKernel, isWritable) && NewDistinct(s, s, lo, lo)
  {
  }

  lemma PageEffect(s: State, before: State, lo: nat, hi: nat, isKernel: bool, isWritable: bool)
    requires lo < hi <= |s.pages|
    requires Filled(s, before, lo, hi - 1, isKernel, isWritable) && NewDistinct(s, before, lo, hi - 1)
    ensures var r := AllocPage(before, hi - 1, isKernel, isWritable);
            Filled(s, r, lo, hi, isKernel, isWritable) && NewDistinct(s, r, lo, hi)
  {
    hide FirstFree;
    FirstFreeZero(before.marked);
    var v := hi - 1;
    if before.pages[v].frame == 0 {
      var f := FirstFree(before.marked);
      FilledOne(s, before, lo, v, f, isKernel, isWritable);
      DistinctOne(s, before, lo, v, f, isKernel, isWritable);
    }
  }

  lemma FilledOne(s: State, before: State, lo: nat, v: nat, f: nat, isKernel: bool, isWritable: bool)
    requires lo <= v < |s.pages| && Filled(s, before, lo, v, isKernel, isWritable) && before.pages[v].frame == 0
    requires f < NFRAMES && (f == 0 || f !in before.marked)
    ensures var r := State(before.marked + {f}, before.pages[v := Mapped(before.pages[v], f, isKernel, isWritable)]);
            Filled(s, r, lo, v + 1, isKernel, isWritable)
  {
  }

  lemma DistinctOne(s: State, before: State, lo: nat, v: nat, f: nat, isKernel: bool, isWritable: bool)
    requires lo <= v < |s.pages| && Filled(s, before, lo, v, isKernel, isWritable) && NewDistinct(s, before, lo, v)
    requires f < NFRAMES && (f == 0 || f !in before.marked)
    ensures var r := State(before.marked + {f}, before.pages[v := Mapped(before.pages[v], f, isKernel, isWritable)]);
            NewDistinct(s, r, lo, v + 1)
  {
  }

  lemma PageCount(s: State, v: nat, isKernel: bool, isWritable: bool)
    requires v < |s.pages| && Tracked(s.marked)
    ensures var r := AllocPage(s, v, isKernel, isWritable);
            && |r.pages| == |s.pages| && (forall w :: 0 <= w < |s.pages| && w != v ==> r.pages[w] == s.pages[w])
            && (r.pages[v].frame == 0 <==> s.pages[v].frame == 0 && FreeFrames(s.marked) == 0)
            && |r.marked| == |s.marked| + if s.pages[v].frame == 0 && FreeFrames(s.marked) > 0 then 1 else 0
  {
    FirstFreeZero(s.marked);
    if FreeFrames(s.marked) == 0 {
      assert s.marked + {0} == s.marked;
    }
  }

  ghost predicate AllMapped(pages: seq<Page>, lo: nat, hi: nat) {
    hi <= |pages| && forall v :: lo <= v < hi ==> pages[v].frame != 0
  }

  /** The range is mapped completely exactly when there are enough free frames; then each
      unmapped page costs one frame, otherwise no frame is left. */
  ghost predicate Counted(s: State, r: State, lo: nat, hi: nat)
    requires lo <= hi <= |s.pages|
  {
    var need, free := Unmapped(s.pages, lo, hi), FreeFrames(s.marked);
    && (need <= free <==> AllMapped(r.pages, lo, hi))
    && |r.marked| == |s.marked| + if need <= free then need else free
  }

  lemma {:induction false} RangeCount(s: State, lo: nat, hi: nat, isKernel: bool, isWritable: bool)
    requires lo <= hi <= |s.pages| && Tracked(s.marked)
    ensures Counted(s, AllocRange(s, lo, hi, isKernel, isWritable), lo, hi)
  {
    hide AllocPage, FirstFree, Tracked, Counted;
    if lo < hi {
      RangeTracked(s, lo, hi - 1, isKernel, isWritable);
      RangeCount(s, lo, hi - 1, isKernel, isWritable);
      CountStep(s, AllocRange(s, lo, hi - 1, isKernel, isWritable), lo, hi, isKernel, isWritable);
    } else {
      NothingCounted(s, lo);
    }
  }

  lemma NothingCounted(s: State, lo: nat)
    requires lo <= |s.pages| && Tracked(s.marked)
    ensures Counted(s, s, lo, lo)
  {
    FirstFreeZero(s.marked);
  }

  lemma CountStep(s: State, before: State, lo: nat, hi: nat, isKernel: bool, isWritable: bool)
    requires lo < hi <= |s.pages| == |before.pages| && before.pages[hi - 1] == s.pages[hi - 1]
    requires Tracked(s.marked) && Tracked(before.marked) && Counted(s, before, lo, hi - 1)
    ensures Counted(s, AllocPage(before, hi - 1, isKernel, isWritable), lo, hi)
  {
    hide AllocPage, FirstFree, Tracked, AllMapped;
    FirstFreeZero(s.marked);
    FirstFreeZero(before.marked);
    PageCount(before, hi - 1, isKernel, isWritable);
    MappedStep(before.pages, AllocPage(before, hi - 1, isKernel, isWritable).pages, lo, hi);
  }

  lemma MappedStep(pages: seq<Page>, after: seq<Page>, lo: nat, hi: nat)
    requires lo < hi <= |pages| == |after| && forall v :: 0 <= v < |pages| && v != hi - 1 ==> after[v] == pages[v]
    ensures AllMapped(after, lo, hi) <==> AllMapped(pages, lo, hi - 1) && after[hi - 1].frame != 0
  {
  }

  lemma RangeTracked(s: State, lo: nat, hi: nat, isKernel: bool, isWritable: bool)
    requires lo <= hi < |s.pages| && Tracked(s.marked)
    ensures var r := AllocRange(s, lo, hi, isKernel, isWritable);
            Tracked(r.marked) && r.pages[hi] == s.pages[hi] && FreeFrames(r.marked) >= 0
  {
    RangeEffect(s, lo, hi, isKernel, isWritable);
    FirstFreeZero(AllocRange(s, lo, hi, isKernel, isWritable).marked);
  }

  // ---------- Whole runs over several directories ----------

  /** The bitset and the entries of every directory. */
  datatype System = System(marked: set<nat>, dirs: seq<seq<Page>>)

  /** Every used frame is marked and lies above the locked low memory, the present entries
      are those with a frame, and no two entries of any directories share one. */
  ghost predicate Separate(y: System) {
    && Tracked(y.marked) && (forall f: nat :: f < LOCKED ==> f in y.marked)
    && (forall d, v :: 0 <= d < |y.dirs| && 0 <= v < |y.dirs[d]| ==> GoodEntry(y.marked, y.dirs[d][v]))
    && forall d, v, e, w :: 0 <= d < |y.dirs| && 0 <= v < |y.dirs[d]| && 0 <= e < |y.dirs| && 0 <= w < |y.dirs[e]| ==>
         y.dirs[d][v].frame == y.dirs[e][w].frame != 0 ==> d == e && v == w
  }

  predicate GoodEntry(marked: set<nat>, p: Page) {
    && (p.present <==> p.frame != 0)
    && (p.frame != 0 ==> LOCKED <= p.frame < NFRAMES && p.frame in marked)
  }

  datatype Call = Fork | Allocate(dir: nat, lo: nat, hi: nat, isKernel: bool, isWritable: bool)

  ghost predicate CanCall(y: System, c: Call) {
    c.Allocate? ==> c.dir < |y.dirs| && c.lo <= c.hi <= |y.dirs[c.dir]|
  }

  /** `fork_page` adds a directory without entries; `allocate` maps a range of one directory. */
  function Perform(y: System, c: Call): System
    requires CanCall(y, c)
  {
    match c
    case Fork => System(y.marked, y.dirs + [seq(PAGES, _ => ZERO_PAGE)])
    case Allocate(d, lo, hi, isKernel, isWritable) =>
      var r := AllocRange(State(y.marked, y.dirs[d]), lo, hi, isKernel, isWritable);
      System(r.marked, y.dirs[d := r.pages])
  }

  predicate EnoughFrames(y: System, c: Call)
    requires CanCall(y, c)
  {
    c.Allocate? ==> Unmapped(y.dirs[c.dir], c.lo, c.hi) <= FreeFrames(y.marked)
  }

  /** A present entry's frame is marked, one of 16384, none of the low 2048, and no other
      entry's in any directory. */
  lemma SeparateMeans(y: System, d: nat, v: nat)
    requires Separate(y) && d < |y.dirs| && v < |y.dirs[d]| && y.dirs[d][v].present
    ensures var f := y.dirs[d][v].frame;
            && 2048 <= f < 16384 && f in y.marked
            && forall e, w :: 0 <= e < |y.dirs| && 0 <= w < |y.dirs[e]| && y.dirs[e][w].present ==>
                 y.dirs[e][w].frame == f ==> e == d && w == v
  {
    assert GoodEntry(y.marked, y.dirs[d][v]);
    forall e, w | 0 <= e < |y.dirs| && 0 <= w < |y.dirs[e]| && y.dirs[e][w].present
      ensures y.dirs[e][w].frame == y.dirs[d][v].frame ==> e == d && w == v
    {
      assert GoodEntry(y.marked, y.dirs[e][w]);
    }
  }

  lemma LockedIsMarked(y: System, f: nat)
    requires (forall g: nat :: g < LOCKED ==> g in y.marked) && f !in y.marked
    ensures LOCKED <= f
  {
  }

  /** One call keeps the frames separate exactly when there are enough of them. */
  lemma CallSeparate(y: System, c: Call)
    requires Separate(y) && CanCall(y, c)
    ensures Separate(Perform(y, c)) <==> EnoughFrames(y, c)
  {
    match c
    case Fork =>
    case Allocate(d, lo, hi, isKernel, isWritable) =>
      var s := State(y.marked, y.dirs[d]);
      RangeEffect(s, lo, hi, isKernel, isWritable);
      RangeCount(s, lo, hi, isKernel, isWritable);
      var r := AllocRange(s, lo, hi, isKernel, isWritable);
      if EnoughFrames(y, c) {
        FilledSeparate(y, d, r, lo, hi, isKernel, isWritable);
      } else {
        var v :| lo <= v < hi && r.pages[v].frame == 0;
        var z := Perform(y, c);
        assert z.dirs[d][v].present && z.dirs[d][v].frame == 0;
        assert !GoodEntry(z.marked, z.dirs[d][v]);
      }
  }

  lemma FilledSeparate(y: System, d: nat, r: State, lo: nat, hi: nat, isKernel: bool, isWritable: bool)
    requires Separate(y) && d < |y.dirs| && lo <= hi <= |y.dirs[d]|
    requires var s := State(y.marked, y.dirs[d]);
             Filled(s, r, lo, hi, isKernel, isWritable) && NewDistinct(s, r, lo, hi)
    requires forall v :: lo <= v < hi ==> r.pages[v].frame != 0
    ensures Separate(System(r.marked, y.dirs[d := r.pages]))
  {
    var z := System(r.marked, y.dirs[d := r.pages]);
    forall e, v | 0 <= e < |z.dirs| && 0 <= v < |z.dirs[e]| ensures GoodEntry(z.marked, z.dirs[e][v]) {
      assert GoodEntry(y.marked, y.dirs[e][v]);
      if e == d && z.dirs[e][v] != y.dirs[e][v] { LockedIsMarked(y, z.dirs[e][v].frame); }
    }
    forall e, v, f, w | 0 <= e < |z.dirs| && 0 <= v < |z.dirs[e]| && 0 <= f < |z.dirs| && 0 <= w < |z.dirs[f]|
                        && z.dirs[e][v].frame == z.dirs[f][w].frame != 0
      ensures e == f && v == w
    {
      assert GoodEntry(y.marked, y.dirs[e][v]) && GoodEntry(y.marked, y.dirs[f][w]);
    }
  }

  ghost predicate Run(ys: seq<System>, calls: seq<Call>) {
    && |ys| == |calls| + 1 && ys[0].dirs == [] && (forall f: nat :: f in ys[0].marked <==> f < LOCKED)
    && forall i :: 0 <= i < |calls| ==> CanCall(ys[i], calls[i]) && ys[i + 1] == Perform(ys[i], calls[i])
  }

  /** From boot on, the frames stay separate through a whole run exactly as long as every call
      finds enough free frames. */
  lemma {:induction false} RunSeparate(ys: seq<System>, calls: seq<Call>, n: nat)
    requires Run(ys, calls) && n <= |calls|
    ensures (forall i :: 0 <= i <= n ==> Separate(ys[i])) <==> forall i :: 0 <= i < n ==> EnoughFrames(ys[i], calls[i])
  {
    hide Perform, EnoughFrames;
    if n > 0 {
      RunSeparate(ys, calls, n - 1);
      if forall i :: 0 <= i < n ==> Separate(ys[i]) {
        assert ys[n] == Perform(ys[n - 1], calls[n - 1]);
        CallSeparate(ys[n - 1], calls[n - 1]);
      }
    }
  }

  lemma {:induction false} UnmappedZeros(pages: seq<Page>, lo: nat, hi: nat)
    requires lo <= hi <= |pages| && forall v :: lo <= v < hi ==> pages[v] == ZERO_PAGE
    ensures Unmapped(pages, lo, hi) == hi - lo
  {
    if lo < hi { UnmappedZeros(pages, lo, hi - 1); }
  }

  /** A run that fails: after the low frames are locked, 14336 frames are left, and one call
      for 14337 pages makes the last page present in frame 0. */
  lemma Exhausted(ys: seq<System>)
    requires Run(ys, [Fork, Call.Allocate(0, 0, 14337, true, true)])
    ensures Separate(ys[1]) && !Separate(ys[2])
  {
    hide Unmapped;
    var calls := [Fork, Call.Allocate(0, 0, NFRAMES - LOCKED + 1, true, true)];
    RunSeparate(ys, calls, 1);
    assert ys[1] == Perform(ys[0], calls[0]);
    UnmappedZeros(ys[1].dirs[0], 0, NFRAMES - LOCKED + 1);
    assert ys[1].marked == Below(LOCKED);
    assert !EnoughFrames(ys[1], calls[1]);
    CallSeparate(ys[1], calls[1]);
  }

  // ---------- Page tables in memory ----------

  /** The pages that `allocate` visits (kernel/page.cpp:195-199): from the truncated address,
      over the rounded-up size, as far as the 32-bit sums reach. */
  function RoundUp(size: nat): nat {
    if size % PAGE_SIZE != 0 then U32(size - size % PAGE_SIZE + PAGE_SIZE) else size
  }

  function FirstPage(virtAddr: nat): nat { virtAddr / PAGE_SIZE }

  function EndPage(virtAddr: nat, size: nat): (e: nat)
    ensures FirstPage(virtAddr) <= e
  {
    var start := virtAddr - virtAddr % PAGE_SIZE;
    var end := U32(start + RoundUp(size));
    if end <= start then FirstPage(virtAddr) else end / PAGE_SIZE
  }

  // Directory entries of the 4 MB pages of the kernel and of its heap (kernel/page.cpp:91-104).
  const KERNEL_SLOT: nat := 768
  const KHEAP_SLOT: nat := 832
  const KERNEL_ENTRY: nat := 0x83
  const KHEAP_ENTRY: nat := 0x400083

  /** A directory after `get_page` made the table of slot t, if there was none: the slot's
      entry becomes the physical address of a page, present, writable and for users. */
  ghost predicate MadeTable(tables: seq<array?<Page>>, physical: seq<nat>, tables': seq<array?<Page>>,
                            physical': seq<nat>, t: nat)
  {
    && |tables| == |physical| == |tables'| == |physical'| && t < |tables|
    && (forall i :: 0 <= i < |tables| && i != t ==> tables'[i] == tables[i] && physical'[i] == physical[i])
    && if tables[t] != null then tables'[t] == tables[t] && physical'[t] == physical[t]
       else tables'[t] != null && physical'[t] % PAGE_SIZE == 7
  }

  class PageDirectory {
    const tables: array<array?<Page>>
    const tablesPhysical: array<nat>

    ghost function Tables(): set<object>
      reads tables
    {
      set i | 0 <= i < tables.Length && tables[i] != null :: tables[i]
    }

    ghost predicate Valid()
      reads tables
    {
      && tables.Length == ENTRIES && tablesPhysical.Length == ENTRIES
      && (forall i :: 0 <= i < ENTRIES && tables[i] != null ==> tables[i].Length == ENTRIES)
      && forall i, j :: 0 <= i < j < ENTRIES && tables[i] != null ==> tables[i] != tables[j]
    }

    /** The entry of page v; all zero while its table does not exist. */
    ghost function EntryAt(v: nat): Page
      requires Valid() && v < PAGES
      reads tables, Tables()
    {
      if tables[v / ENTRIES] == null then ZERO_PAGE else tables[v / ENTRIES][v % ENTRIES]
    }

    ghost function Entries(): (s: seq<Page>)
      requires Valid()
      reads tables, Tables()
      ensures |s| == PAGES && forall v :: 0 <= v < PAGES ==> s[v] == EntryAt(v)
    {
      seq(PAGES, v requires 0 <= v < PAGES && Valid() reads tables, Tables() => EntryAt(v))
    }

    /** The 4 MB entries are those of a new directory. */
    ghost predicate KernelMapped()
      requires Valid()
      reads tables, tablesPhysical
    {
      tablesPhysical[KERNEL_SLOT] == KERNEL_ENTRY && tablesPhysical[KHEAP_SLOT] == KHEAP_ENTRY
    }

    /** `fork_page` (kernel/page.cpp:94-109). */
    constructor ()
      ensures Valid() && fresh(tables) && fresh(tablesPhysical) && Tables() == {}
      ensures tables as object != tablesPhysical && KernelMapped()
      ensures forall i :: 0 <= i < ENTRIES ==> tables[i] == null
    {
      tables := new array?<Page>[ENTRIES](_ => null);
      tablesPhysical := new nat[ENTRIES](_ => 0);
      new;
      tablesPhysical[KERNEL_SLOT] := KERNEL_ENTRY;
      tablesPhysical[KHEAP_SLOT] := KHEAP_ENTRY;
    }

    /** `get_phys` (kernel/page.cpp:154-164): the assertion fails unless the address lies in
        a 4 MB page. */
    method GetPhys(address: nat) returns (r: Outcome<nat>)
      requires Valid() && address < WORD
      ensures r == Physical(tablesPhysical[address / PAGE_SIZE / ENTRIES], address)
      ensures var entry := tablesPhysical[address / 0x400000];
              if entry / 0x80 % 2 == 1 then r == Done(entry / 0x1000 * 0x1000 + address % 0x400000) else r.Halted?
    {
      var entry := tablesPhysical[address / PAGE_SIZE / ENTRIES];
      if entry / 0x80 % 2 == 1 {
        r := Done(entry - entry % 0x1000 + address % LARGE);
      } else {
        r := Halted;
      }
    }

    /** `get_page` (kernel/page.cpp:169-188): the table and the place in it; with `make` a
        missing table is created, all zero, on a page of its own. */
    method GetPage(address: nat, make: bool) returns (table: array?<Page>, index: nat)
      requires Valid() && address < WORD && tables as object != tablesPhysical && tablesPhysical !in Tables()
      modifies tables, tablesPhysical
      ensures Valid() && index == address / 0x1000 % 1024
      ensures table == tables[address / PAGE_SIZE / ENTRIES] == tables[address / 0x1000 / 1024]
      ensures make ==> table != null
      ensures !make ==> tables[..] == old(tables[..]) && tablesPhysical[..] == old(tablesPhysical[..])
      ensures make ==> MadeTable(old(tables[..]), old(tablesPhysical[..]), tables[..], tablesPhysical[..],
                                 address / PAGE_SIZE / ENTRIES)
      ensures fresh(Tables() - old(Tables())) && old(Tables()) <= Tables()
      ensures forall v :: 0 <= v < PAGES ==> EntryAt(v) == old(EntryAt(v))
    {
      var page := address / PAGE_SIZE;
      var tableIdx := page / ENTRIES;
      index := page % ENTRIES;
      if tables[tableIdx] == null && make {
        var newTable := new Page[ENTRIES](_ => ZERO_PAGE);
        tables[tableIdx] := newTable;
        var physical := PageAddress();
        tablesPhysical[tableIdx] := physical + 7;
      }
      table := tables[tableIdx];
    }
  }

  /** The physical address that the heap reports for a new table: some page's. */
  method PageAddress() returns (physical: nat)
    ensures physical % PAGE_SIZE == 0
  {
    physical :| physical % PAGE_SIZE == 0;
  }

  /** What `get_phys` makes of a directory entry. */
  function Physical(entry: nat, address: nat): Outcome<nat> {
    if entry / 0x80 % 2 == 1 then Done(entry - entry % 0x1000 + address % LARGE) else Halted
  }

  /** `alloc_frame` (kernel/page.cpp:61-72). The assertion at line 66 compares with -1 and
      never fails. */
  method AllocFrame(frames: FrameSet, table: array<Page>, index: nat, isKernel: bool, isWritable: bool)
    requires frames.Valid() && index < table.Length && frames.words as object != table
    modifies frames.words, table
    ensures forall k :: 0 <= k < table.Length && k != index ==> table[k] == old(table[k])
    ensures var p, marked := old(table[index]), old(frames.Marked());
            if p.frame != 0 then table[index] == p && frames.Marked() == marked
            else table[index] == Mapped(p, FirstFree(marked), isKernel, isWritable)
                 && frames.Marked() == marked + {FirstFree(marked)}
    ensures old(table[index]).frame == 0 ==>
              table[index].present && (table[index].rw <==> isWritable) && (table[index].user <==> !isKernel)
  {
    hide FirstFree;
    FirstFreeBound(frames.Marked());
    if table[index].frame != 0 { return; }
    var idx := frames.FirstFrame();
    frames.SetFrame(idx * PAGE_SIZE);
    table[index] := table[index].(present := true);
    table[index] := table[index].(rw := isWritable);
    table[index] := table[index].(user := !isKernel);
    table[index] := table[index].(frame := idx);
  }

  /** `free_frame` (kernel/page.cpp:75-83), which hands the frame's number to a function that
      takes an address. */
  method FreeFrame(frames: FrameSet, table: array<Page>, index: nat)
    requires frames.Valid() && index < table.Length && frames.words as object != table && table[index].frame < NFRAMES
    modifies frames.words, table
    ensures var p, marked := old(table[index]), old(frames.Marked());
            && table[index] == p.(frame := 0)
            && frames.Marked() == if p.frame != 0 then marked - {p.frame / 0x1000} else marked
    ensures forall k :: 0 <= k < table.Length && k != index ==> table[k] == old(table[k])
  {
    var frame := table[index].frame;
    if frame != 0 {
      frames.ClearFrame(frame);
      table[index] := table[index].(frame := 0);
    }
  }

  /** So the frame itself is never released: what is unmarked is one of the four lowest
      frames, which are locked. */
  lemma FreeFrameMisses(marked: set<nat>, frame: nat)
    requires 0 < frame < NFRAMES && frame in marked && (forall f: nat :: f < LOCKED ==> f in marked)
    ensures frame in marked - {frame / 0x1000}
    ensures exists f: nat :: f < LOCKED && f !in marked - {frame / 0x1000}
  {
  }

  lemma FirstFreeBound(marked: set<nat>)
    ensures FirstFree(marked) < NFRAMES
  {
  }

  ghost predicate Apart(frames: FrameSet, dir: PageDirectory)
    reads dir.tables
  {
    && frames.words as object != dir.tables && frames.words !in dir.Tables() && dir.tables !in dir.Tables()
    && frames.words as object != dir.tablesPhysical && dir.tables as object != dir.tablesPhysical
    && dir.tablesPhysical !in dir.Tables()
  }

  ghost function StateOf(frames: FrameSet, dir: PageDirectory): (s: State)
    requires frames.Valid() && dir.Valid()
    reads frames.words, dir.tables, dir.Tables()
    ensures |s.pages| == PAGES
  {
    State(frames.Marked(), dir.Entries())
  }

  /** One round of the loop of `allocate` (kernel/page.cpp:200). */
  method AllocOne(frames: FrameSet, dir: PageDirectory, address: nat, isKernel: bool, isWritable: bool)
    requires frames.Valid() && dir.Valid() && Apart(frames, dir) && address < WORD
    modifies frames.words, dir.tables, dir.tablesPhysical, dir.Tables()
    ensures dir.Valid() && Apart(frames, dir) && fresh(dir.Tables() - old(dir.Tables()))
    ensures MadeTable(old(dir.tables[..]), old(dir.tablesPhysical[..]), dir.tables[..], dir.tablesPhysical[..],
                      address / PAGE_SIZE / ENTRIES)
    ensures StateOf(frames, dir) == AllocPage(old(StateOf(frames, dir)), address / PAGE_SIZE, isKernel, isWritable)
  {
    hide MadeTable, FirstFree;
    ghost var before := StateOf(frames, dir);
    ghost var v := address / PAGE_SIZE;
    var table, index := dir.GetPage(address, true);
    AllocFrame(frames, table, index, isKernel, isWritable);
    assert dir.Entries() == AllocPage(before, v, isKernel, isWritable).pages;
  }

  /** `page_allocator::allocate` (kernel/page.cpp:193-204). */
  method Allocate(frames: FrameSet, dir: PageDirectory, virtAddr: nat, size: nat, isKernel: bool, isWritable: bool)
    requires frames.Valid() && dir.Valid() && Apart(frames, dir) && virtAddr < WORD && size < WORD
    modifies frames.words, dir.tables, dir.tablesPhysical, dir.Tables()
    ensures dir.Valid() && Apart(frames, dir) && EndPage(virtAddr, size) <= PAGES
    ensures MadeTables(old(dir.tables[..]), old(dir.tablesPhysical[..]), dir.tables[..], dir.tablesPhysical[..],
                       FirstPage(virtAddr), EndPage(virtAddr, size))
    ensures StateOf(frames, dir)
         == AllocRange(old(StateOf(frames, dir)), FirstPage(virtAddr), EndPage(virtAddr, size), isKernel, isWritable)
  {
    hide AllocRange, AllocPage, StateOf, U32, FirstPage, EndPage, MadeTable, MadeTables;
    ghost var tables, physical := dir.tables[..], dir.tablesPhysical[..];
    var start: nat := virtAddr - virtAddr % PAGE_SIZE;
    var rounded: nat := size;
    if size % PAGE_SIZE != 0 {
      rounded := U32(size - size % PAGE_SIZE + PAGE_SIZE);
    }
    var end := U32(start + rounded);
    ghost var lo, hi := RangeBounds(virtAddr, size, start, rounded, end);
    ghost var v := lo;
    var i := start;
    EmptyRange(StateOf(frames, dir), lo, isKernel, isWritable);
    NoTables(tables, physical, lo);
    while i < end
      invariant dir.Valid() && Apart(frames, dir) && fresh(dir.Tables() - old(dir.Tables()))
      invariant i == v * PAGE_SIZE && lo <= v <= hi
      invariant StateOf(frames, dir) == AllocRange(old(StateOf(frames, dir)), lo, v, isKernel, isWritable)
      invariant MadeTables(tables, physical, dir.tables[..], dir.tablesPhysical[..], lo, v)
      decreases hi - v
    {
      EndBound(size, start, rounded, end);
      NextPage(i, v, hi, end);
      ghost var tables1, physical1 := dir.tables[..], dir.tablesPhysical[..];
      AllocOne(frames, dir, i, isKernel, isWritable);
      MoreTables(tables, physical, tables1, physical1, dir.tables[..], dir.tablesPhysical[..], lo, v);
      NextRange(old(StateOf(frames, dir)), lo, v, isKernel, isWritable);
      i := U32(i + PAGE_SIZE);
      v := v + 1;
    }
    LoopEnd(v, hi, end, lo);
  }

  ghost predicate Visits(lo: nat, hi: nat, t: nat) {
    exists v :: lo <= v < hi && v / ENTRIES == t
  }

  /** The slots of the visited pages get a table where there was none; others do not change. */
  ghost predicate MadeTables(tables: seq<array?<Page>>, physical: seq<nat>, tables': seq<array?<Page>>,
                             physical': seq<nat>, lo: nat, hi: nat)
  {
    && |tables| == |physical| == |tables'| == |physical'|
    && forall t {:trigger tables'[t]} {:trigger physical'[t]} :: 0 <= t < |tables| ==>
         if tables[t] == null && Visits(lo, hi, t) then tables'[t] != null && physical'[t] % PAGE_SIZE == 7
         else tables'[t] == tables[t] && physical'[t] == physical[t]
  }

  lemma NoTables(tables: seq<array?<Page>>, physical: seq<nat>, lo: nat)
    requires |tables| == |physical|
    ensures MadeTables(tables, physical, tables, physical, lo, lo)
  {
  }

  lemma VisitsNext(lo: nat, v: nat, t: nat)
    requires lo <= v
    ensures Visits(lo, v + 1, t) <==> Visits(lo, v, t) || v / ENTRIES == t
  {
    if Visits(lo, v + 1, t) {
      var w :| lo <= w < v + 1 && w / ENTRIES == t;
      assert w == v || w < v;
    }
  }

  lemma MoreTables(tables: seq<array?<Page>>, physical: seq<nat>, tables1: seq<array?<Page>>, physical1: seq<nat>,
                   tables': seq<array?<Page>>, physical': seq<nat>, lo: nat, v: nat)
    requires lo <= v && MadeTables(tables, physical, tables1, physical1, lo, v)
    requires MadeTable(tables1, physical1, tables', physical', v / ENTRIES)
    ensures MadeTables(tables, physical, tables', physical', lo, v + 1)
  {
    hide Visits;
    forall t | 0 <= t < |tables|
      ensures if tables[t] == null && Visits(lo, v + 1, t) then tables'[t] != null && physical'[t] % PAGE_SIZE == 7
              else tables'[t] == tables[t] && physical'[t] == physical[t]
    {
      VisitsNext(lo, v, t);
      assert tables1[t] == tables1[t];
    }
  }

  /** A call leaves the 4 MB entry of a slot exactly when it visits no page there or the slot
      had a table already. */
  lemma LargeEntryKept(tables: seq<array?<Page>>, physical: seq<nat>, tables': seq<array?<Page>>, physical': seq<nat>,
                       lo: nat, hi: nat, t: nat)
    requires MadeTables(tables, physical, tables', physical', lo, hi)
    requires t < |tables| && (physical[t] == KERNEL_ENTRY || physical[t] == KHEAP_ENTRY)
    ensures physical'[t] == physical[t] <==> tables[t] != null || !Visits(lo, hi, t)
    ensures physical'[t] != physical[t] ==> forall a: nat :: Physical(physical'[t], a).Halted?
  {
    hide Visits;
    assert tables'[t] == tables'[t];
    if physical'[t] % PAGE_SIZE == 7 {
      SmallEntry(physical'[t]);
    }
  }

  lemma SmallEntry(entry: nat)
    requires entry % PAGE_SIZE == 7
    ensures entry / 0x80 % 2 == 0
  {
    var q := entry / PAGE_SIZE;
    assert entry == 0x80 * (0x20 * q) + 7;
    assert entry / 0x80 == 0x20 * q;
  }

  lemma EmptyRange(s: State, lo: nat, isKernel: bool, isWritable: bool)
    requires lo <= |s.pages|
    ensures AllocRange(s, lo, lo, isKernel, isWritable) == s
  {
  }

  lemma NextRange(s: State, lo: nat, v: nat, isKernel: bool, isWritable: bool)
    requires lo <= v < |s.pages|
    ensures AllocRange(s, lo, v + 1, isKernel, isWritable)
         == AllocPage(AllocRange(s, lo, v, isKernel, isWritable), v, isKernel, isWritable)
  {
  }

  /** The loop runs over whole pages; its bounds never leave the address space. */
  lemma RangeBounds(virtAddr: nat, size: nat, start: nat, rounded: nat, end: nat) returns (lo: nat, hi: nat)
    requires virtAddr < WORD && size < WORD && start == virtAddr - virtAddr % PAGE_SIZE
    requires rounded == RoundUp(size) && end == U32(start + rounded)
    ensures lo == FirstPage(virtAddr) && hi == EndPage(virtAddr, size) && lo <= hi <= PAGES
    ensures start == lo * PAGE_SIZE && (end == hi * PAGE_SIZE || (hi == lo && end <= start))
  {
    lo, hi := FirstPage(virtAddr), EndPage(virtAddr, size);
    WholePages(size);
    var k := rounded / PAGE_SIZE;
    assert start == lo * PAGE_SIZE && rounded == k * PAGE_SIZE;
    WrapPages(lo + k);
  }

  lemma WholePages(size: nat)
    requires size < WORD
    ensures RoundUp(size) % PAGE_SIZE == 0 && RoundUp(size) < WORD
  {
  }

  lemma WrapPages(k: nat)
    ensures U32(k * PAGE_SIZE) == k % PAGES * PAGE_SIZE
  {
  }

  lemma NextPage(i: nat, v: nat, hi: nat, end: nat)
    requires i == v * PAGE_SIZE < end < WORD && end == hi * PAGE_SIZE
    ensures v < hi && U32(i + PAGE_SIZE) == (v + 1) * PAGE_SIZE && i < WORD && i / PAGE_SIZE == v < PAGES
  {
  }

  lemma LoopEnd(v: nat, hi: nat, end: nat, lo: nat)
    requires end <= v * PAGE_SIZE && lo <= v <= hi && (end == hi * PAGE_SIZE || hi == lo)
    ensures v == hi
  {
  }

  lemma EndBound(size: nat, start: nat, rounded: nat, end: nat)
    requires end == U32(start + rounded)
    ensures end < WORD
  {
  }

  // ---------- What a call covers ----------

  /** The size rounded up to whole pages, without wrapping. */
  function Whole(size: nat): nat { (size + PAGE_SIZE - 1) / PAGE_SIZE * PAGE_SIZE }

  ghost predicate Covers(virtAddr: nat, size: nat) {
    forall b: nat :: virtAddr <= b < virtAddr + size ==> InRange(virtAddr, size, b)
  }

  predicate InRange(virtAddr: nat, size: nat, b: nat) {
    FirstPage(virtAddr) <= b / PAGE_SIZE < EndPage(virtAddr, size)
  }

  lemma RoundUpIsWhole(size: nat)
    requires size < WORD
    ensures RoundUp(size) == U32(Whole(size)) && size <= Whole(size) <= WORD && (size > 0 ==> Whole(size) >= PAGE_SIZE)
  {
    var q, r := size / PAGE_SIZE, size % PAGE_SIZE;
    assert size == q * PAGE_SIZE + r;
    if r == 0 {
      assert (size + PAGE_SIZE - 1) / PAGE_SIZE == q;
    } else {
      assert (size + PAGE_SIZE - 1) / PAGE_SIZE == q + 1;
    }
  }

  /** The visited pages: all of the rounded-up size, or none when the sum wraps around. */
  lemma EndPageIs(virtAddr: nat, size: nat)
    requires virtAddr < WORD && size < WORD
    ensures FirstPage(virtAddr) == virtAddr / 0x1000
    ensures var start, whole := virtAddr / 0x1000 * 0x1000, (size + 0xfff) / 0x1000 * 0x1000;
            EndPage(virtAddr, size) * 0x1000 == if start + whole < 0x1_0000_0000 then start + whole else start
  {
    hide U32, RoundUp, Whole;
    WholeMeans(size);
    RoundUpIsWhole(size);
    var start, w := FirstPage(virtAddr) * PAGE_SIZE, Whole(size);
    StartPage(virtAddr);
    U32Is(w);
    U32Is(start + RoundUp(size));
    var lo, hi := RangeBounds(virtAddr, size, start, RoundUp(size), U32(start + RoundUp(size)));
  }

  lemma WholeMeans(size: nat)
    ensures Whole(size) == (size + 0xfff) / 0x1000 * 0x1000
  {
  }

  lemma StartPage(virtAddr: nat)
    ensures virtAddr - virtAddr % PAGE_SIZE == FirstPage(virtAddr) * PAGE_SIZE
  {
  }

  lemma U32Is(x: nat)
    requires x < 2 * WORD
    ensures U32(x) == if x < WORD then x else x - WORD
  {
  }

  /** A call covers every requested byte exactly when the rounded end stays inside the address
      space and the offset of the start in its page leaves room for the size; so an
      unaligned start can miss the tail. */
  lemma CoversExactly(virtAddr: nat, size: nat)
    requires 0 < size < WORD && virtAddr + size <= WORD
    ensures Covers(virtAddr, size) <==>
              var whole := (size + 0xfff) / 0x1000 * 0x1000;
              virtAddr / 0x1000 * 0x1000 + whole < 0x1_0000_0000 && virtAddr % 0x1000 + size <= whole
  {
    WholeMeans(size);
    EndPageIs(virtAddr, size);
    RoundUpIsWhole(size);
    var start, last := FirstPage(virtAddr) * PAGE_SIZE, virtAddr + size - 1;
    assert virtAddr == start + virtAddr % PAGE_SIZE;
    if start + Whole(size) < WORD && virtAddr % PAGE_SIZE + size <= Whole(size) {
      forall b: nat | virtAddr <= b < virtAddr + size ensures InRange(virtAddr, size, b) {
        PageOf(b, FirstPage(virtAddr), EndPage(virtAddr, size));
      }
    } else {
      PageOf(last, FirstPage(virtAddr), EndPage(virtAddr, size));
      assert !InRange(virtAddr, size, last);
    }
  }

  /** 4096 bytes from address 1 on: only page 0 is mapped, byte 4096 is missed. */
  lemma TailMissed()
    ensures FirstPage(1) == 0 && EndPage(1, 0x1000) == 1 && !InRange(1, 0x1000, 0x1000) && !Covers(1, 0x1000)
  {
    assert !InRange(1, 0x1000, 0x1000);
  }

  lemma PageOf(b: nat, lo: nat, hi: nat)
    ensures lo <= b / PAGE_SIZE < hi <==> lo * PAGE_SIZE <= b < hi * PAGE_SIZE
  {
  }

  // ---------- The 4 MB pages ----------

  const LARGE: nat := 0x400000

  /** Through the entries of a new directory the kernel's first 4 MB and its heap have the
      first and second 4 MB of physical memory, and no frame that `allocate` hands out, to
      any directory, lies in either. */
  lemma KernelMemoryApart(dir: PageDirectory, y: System, d: nat, v: nat, address: nat)
    requires dir.Valid() && dir.KernelMapped() && address < WORD
    requires Separate(y) && d < |y.dirs| && v < |y.dirs[d]| && y.dirs[d][v].present
    ensures var phys := Physical(dir.tablesPhysical[address / PAGE_SIZE / ENTRIES], address);
            && (0xc0000000 <= address < 0xc0400000 ==> phys == Done(address - 0xc0000000))
            && (0xd0000000 <= address < 0xd0400000 ==> phys == Done(address - 0xd0000000 + 0x400000))
    ensures 0x800000 <= y.dirs[d][v].frame * 0x1000
  {
    assert GoodEntry(y.marked, y.dirs[d][v]);
    if 0xc0000000 <= address < 0xc0400000 {
      SlotOf(address, KERNEL_SLOT);
    } else if 0xd0000000 <= address < 0xd0400000 {
      SlotOf(address, KHEAP_SLOT);
    }
  }

  lemma SlotOf(address: nat, t: nat)
    requires t * LARGE <= address < (t + 1) * LARGE
    ensures address / PAGE_SIZE / ENTRIES == t && address % LARGE == address - t * LARGE
  {
  }
}
