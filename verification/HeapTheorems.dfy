/** What the list operations of HeapBlocks keep, and what they undo. */
module HeapTheorems {
  import opened HeapBlocks

  // ---------- Tiling and the live set under each primitive ----------

  lemma SetUsedTiles(bs: seq<Block>, k: nat, used: bool, start: nat, end: nat)
    requires Tiles(bs, start, end) && k < |bs|
    ensures Tiles(SetUsed(bs, k, used), start, end)
  {
  }

  lemma MergeTiles(bs: seq<Block>, k: nat, start: nat, end: nat)
    requires Tiles(bs, start, end) && k + 1 < |bs|
    ensures Tiles(Merge(bs, k), start, end)
  {
  }

  lemma SplitTiles(bs: seq<Block>, k: nat, n: nat, start: nat, end: nat)
    requires Tiles(bs, start, end) && k < |bs| && n + HEADER <= bs[k].size
    ensures Tiles(Split(bs, k, n), start, end)
  {
  }

  /** Addresses identify blocks. */
  lemma SameAddress(bs: seq<Block>, start: nat, end: nat, i: nat, j: nat)
    requires Tiles(bs, start, end) && i < |bs| && j < |bs| && bs[i].addr == bs[j].addr
    ensures i == j
  {
    Bounds(bs, start, end);
  }

  lemma SameBlock(bs: seq<Block>, start: nat, end: nat, b: Block, c: Block)
    requires Tiles(bs, start, end) && b in bs && c in bs && b.addr == c.addr
    ensures b == c
  {
    Bounds(bs, start, end);
  }

  lemma LiveReplace(bs: seq<Block>, k: nat, b: Block, start: nat, end: nat)
    requires Tiles(bs, start, end) && k < |bs|
    ensures Live(bs[k := b]) == Live(bs) - {bs[k]} + (if b.used then {b} else {})
  {
    var r := bs[k := b];
    forall c | c in Live(bs) && c != bs[k] ensures c in Live(r) {
      var i :| 0 <= i < |bs| && bs[i] == c;
      assert r[i] == c;
    }
    forall c | c in Live(r) ensures c in Live(bs) - {bs[k]} + (if b.used then {b} else {}) {
      var i :| 0 <= i < |r| && r[i] == c;
      if i != k && bs[i] == bs[k] { SameAddress(bs, start, end, i, k); }
    }
    if b.used { assert r[k] == b; }
  }

  /** Merging two free blocks leaves the live set alone. */
  lemma LiveMerge(bs: seq<Block>, k: nat)
    requires k + 1 < |bs| && !bs[k].used && !bs[k + 1].used
    ensures Live(Merge(bs, k)) == Live(bs)
  {
  }

  /** Splitting hands out the first part. */
  lemma LiveSplit(bs: seq<Block>, k: nat, n: nat, start: nat, end: nat)
    requires Tiles(bs, start, end) && k < |bs| && n + HEADER <= bs[k].size
    ensures Live(Split(bs, k, n)) == Live(bs) - {bs[k]} + {Block(bs[k].addr, n, true)}
  {
    var r := Split(bs, k, n);
    forall c | c in Live(bs) && c != bs[k] ensures c in Live(r) {
      var i :| 0 <= i < |bs| && bs[i] == c;
      assert r[if i < k then i else i + 1] == c;
    }
    assert r[k] == Block(bs[k].addr, n, true);
    forall c | c in Live(r) ensures c in Live(bs) - {bs[k]} + {r[k]} {
      var i :| 0 <= i < |r| && r[i] == c;
      if i != k {
        var j := if i < k then i else i - 1;
        assert i != k + 1;
        assert bs[j] == c && j != k;
        if bs[j] == bs[k] { SameAddress(bs, start, end, j, k); }
      }
    }
  }

  // ---------- Allocation ----------

  lemma {:induction false} TakeKeeps(bs: seq<Block>, k: nat, n: nat, start: nat, end: nat)
    requires HeapShape(bs, start, end) && k < |bs| && !bs[k].used && n <= bs[k].size
    ensures HeapShape(Take(bs, k, n), start, end)
    ensures var size := if WorthSplitting(bs[k].size, n) then n else bs[k].size;
            Live(Take(bs, k, n)) == Live(bs) + {Block(bs[k].addr, size, true)}
  {
    var r := Take(bs, k, n);
    assert bs[k] !in Live(bs);
    if WorthSplitting(bs[k].size, n) {
      SplitTiles(bs, k, n, start, end);
      LiveSplit(bs, k, n, start, end);
      assert k + 1 < |bs| ==> bs[k + 1].used;
      assert forall i :: 0 <= i < |r| && i != k && i != k + 1 ==> r[i] == if i < k then bs[i] else bs[i - 1];
    } else {
      SetUsedTiles(bs, k, true, start, end);
      LiveReplace(bs, k, bs[k].(used := true), start, end);
    }
  }

  /** A successful allocation keeps the heap well formed and adds exactly one live
      block, of at least the asked size. */
  lemma {:induction false} AllocKeeps(bs: seq<Block>, n: nat, bs': seq<Block>, p: nat, start: nat, end: nat)
    returns (b: Block)
    requires HeapShape(bs, start, end) && AllocStep(bs, n, bs', p)
    ensures HeapShape(bs', start, end)
    ensures b.used && b.Data() == p == b.addr + 16 && n <= b.size <= n + 20
    ensures Live(bs') == Live(bs) + {b} && b !in Live(bs)
    ensures forall c :: c in Live(bs) ==> c.End() <= b.addr || b.End() <= c.addr
  {
    var k: nat :| IsBestFit(bs, n, k) && bs' == Take(bs, k, n) && p == bs[k].Data();
    TakeKeeps(bs, k, n, start, end);
    b := Block(bs[k].addr, if WorthSplitting(bs[k].size, n) then n else bs[k].size, true);
    forall c | c in Live(bs) ensures c.End() <= b.addr || b.End() <= c.addr {
      PayloadsDisjoint(bs, start, end, bs[k], c);
    }
  }

  /** Best fit chooses one block, so the step is a function of the list. */
  lemma AllocDeterministic(bs: seq<Block>, n: nat, r: seq<Block>, p: nat, s: seq<Block>, q: nat)
    requires AllocStep(bs, n, r, p) && AllocStep(bs, n, s, q)
    ensures r == s && p == q
  {
  }

  /** Best fit is complete: it chooses a block exactly when some free block is large enough. */
  lemma {:induction false} BestFitExists(bs: seq<Block>, n: nat)
    ensures Fits(bs, n) <==> exists k: nat :: IsBestFit(bs, n, k)
  {
    if Fits(bs, n) {
      var k :| 0 <= k < |bs| && !bs[k].used && n <= bs[k].size;
      var best := Descend(bs, n, k);
    }
  }

  lemma {:induction false} Descend(bs: seq<Block>, n: nat, k: nat) returns (best: nat)
    requires k < |bs| && !bs[k].used && n <= bs[k].size
    ensures IsBestFit(bs, n, best)
    decreases bs[k].size, k
  {
    if j :| 0 <= j < |bs| && !bs[j].used && n <= bs[j].size && bs[j].size < bs[k].size {
      best := Descend(bs, n, j);
    } else if j :| 0 <= j < k && !bs[j].used && n <= bs[j].size && bs[j].size <= bs[k].size {
      best := Descend(bs, n, j);
    } else {
      best := k;
    }
  }

  /** What the one-pass search knows after looking at the first c blocks: b is the first
      free block, or the best fit among those seen. */
  ghost predicate BestSoFar(bs: seq<Block>, n: nat, first: nat, c: nat, b: nat) {
    && first <= b < |bs| && c <= |bs| && !bs[b].used && (b == first || b < c)
    && (n <= bs[b].size ==>
          forall j :: 0 <= j < c && !bs[j].used && n <= bs[j].size ==>
            bs[b].size <= bs[j].size && (j < b ==> bs[b].size < bs[j].size))
    && (bs[b].size < n ==> b == first && forall j :: 0 <= j < c && !bs[j].used ==> bs[j].size < n)
  }

  lemma BestStart(bs: seq<Block>, n: nat, first: nat)
    requires first < |bs| && !bs[first].used
    ensures BestSoFar(bs, n, first, 0, first)
  {
  }

  /** The outcome of the search: the best fit, or the first free block when none fits. */
  ghost predicate Found(bs: seq<Block>, n: nat, b: nat) {
    && b < |bs| && !bs[b].used
    && (n <= bs[b].size ==> IsBestFit(bs, n, b))
    && (bs[b].size < n ==> !Fits(bs, n) && forall i :: 0 <= i < b ==> bs[i].used)
  }

  ghost predicate AllUsed(bs: seq<Block>) {
    forall i :: 0 <= i < |bs| ==> bs[i].used
  }

  lemma BestEnd(bs: seq<Block>, n: nat, first: nat, b: nat)
    requires BestSoFar(bs, n, first, |bs|, b)
    requires forall i :: 0 <= i < first ==> bs[i].used
    ensures Found(bs, n, b)
  {
  }

  /** The search has one outcome. */
  lemma FoundUnique(bs: seq<Block>, n: nat, b: nat, c: nat)
    requires Found(bs, n, b) && Found(bs, n, c)
    ensures b == c
  {
  }

  lemma BestStep(bs: seq<Block>, n: nat, first: nat, c: nat, b: nat)
    requires BestSoFar(bs, n, first, c, b) && c < |bs| && b < |bs|
    requires forall i :: 0 <= i < first ==> bs[i].used
    ensures var take := !bs[c].used && n <= bs[c].size && (bs[c].size < bs[b].size || bs[b].size < n);
            BestSoFar(bs, n, first, c + 1, if take then c else b)
  {
  }

  // ---------- Release ----------

  /** Only the pairs that block k belongs to may both be free. */
  ghost predicate CoalescedBut(bs: seq<Block>, k: nat) {
    forall i :: 0 <= i < |bs| - 1 && i + 1 != k && i != k ==> bs[i].used || bs[i + 1].used
  }

  lemma {:induction false} MergeForwardKeeps(bs: seq<Block>, k: nat, start: nat, end: nat)
    requires Tiles(bs, start, end) && k < |bs| && !bs[k].used && CoalescedBut(bs, k)
    ensures var r := MergeForward(bs, k);
            && Tiles(r, start, end) && Live(r) == Live(bs) && CoalescedBut(r, k)
            && !r[k].used && (k + 1 < |r| ==> r[k + 1].used)
    decreases |bs|
  {
    if k + 1 < |bs| && !bs[k + 1].used {
      var m := Merge(bs, k);
      MergeTiles(bs, k, start, end);
      LiveMerge(bs, k);
      assert forall i :: 0 <= i < |m| && i != k ==> m[i] == if i < k then bs[i] else bs[i + 1];
      MergeForwardKeeps(m, k, start, end);
    }
  }

  /** A free block k absorbed by a free predecessor. */
  lemma MergeFree(bs: seq<Block>, k: nat)
    requires 0 < k < |bs| && !bs[k].used && !bs[k - 1].used && CoalescedBut(bs, k)
    requires k + 1 < |bs| ==> bs[k + 1].used
    ensures var m := Merge(bs, k - 1);
            |m| == |bs| - 1 && !m[k - 1].used && CoalescedBut(m, k - 1) && (k < |m| ==> m[k].used)
  {
  }

  lemma {:induction false} MergeBackwardKeeps(bs: seq<Block>, k: nat, start: nat, end: nat)
    requires Tiles(bs, start, end) && k < |bs| && !bs[k].used && CoalescedBut(bs, k)
    requires k + 1 < |bs| ==> bs[k + 1].used
    ensures var r := MergeBackward(bs, k);
            HeapShape(r, start, end) && Live(r) == Live(bs)
    decreases k
  {
    hide Live, Merge;
    if k > 0 && !bs[k - 1].used {
      MergeTiles(bs, k - 1, start, end);
      LiveMerge(bs, k - 1);
      MergeFree(bs, k);
      MergeBackwardKeeps(Merge(bs, k - 1), k - 1, start, end);
    }
  }

  /** Releasing a block keeps the heap well formed and coalesced and removes exactly
      that block from the live set. */
  lemma {:induction false} ReleaseKeeps(bs: seq<Block>, k: nat, start: nat, end: nat)
    requires HeapShape(bs, start, end) && k < |bs|
    ensures HeapShape(Release(bs, k), start, end)
    ensures Live(Release(bs, k)) == Live(bs) - {bs[k]}
  {
    if bs[k].used {
      var freed := SetUsed(bs, k, false);
      SetUsedTiles(bs, k, false, start, end);
      LiveReplace(bs, k, bs[k].(used := false), start, end);
      MergeForwardKeeps(freed, k, start, end);
      MergeBackwardKeeps(MergeForward(freed, k), k, start, end);
    }
  }

  // ---------- Canonical form ----------

  lemma LiveTail(bs: seq<Block>, start: nat, end: nat)
    requires Tiles(bs, start, end) && |bs| > 1
    ensures Tiles(bs[1..], bs[0].End(), end)
    ensures Live(bs[1..]) == Live(bs) - {bs[0]}
    ensures forall b :: b in Live(bs[1..]) ==> bs[0].End() <= b.addr
  {
    Bounds(bs, start, end);
    forall b | b in Live(bs) && b != bs[0] ensures b in Live(bs[1..]) {
      var i :| 0 <= i < |bs| && bs[i] == b;
      assert bs[1..][i - 1] == b;
    }
  }

  /** Where the first block of a heap ends is decided by the live set. */
  lemma FirstBlockLe(bs: seq<Block>, cs: seq<Block>, start: nat, end: nat)
    requires HeapShape(bs, start, end) && HeapShape(cs, start, end) && Live(bs) == Live(cs)
    ensures bs[0].used ==> cs[0] == bs[0]
    ensures !bs[0].used && !cs[0].used ==> cs[0].End() <= bs[0].End()
  {
    Bounds(bs, start, end);
    Bounds(cs, start, end);
    if bs[0].used {
      assert bs[0] in Live(cs);
      var i :| 0 <= i < |cs| && cs[i] == bs[0];
      assert i == 0;
    } else if !cs[0].used && |bs| > 1 {
      assert bs[1].used && bs[1] in Live(cs);
      var i :| 0 <= i < |cs| && cs[i] == bs[1];
      assert i > 0;
    }
  }

  lemma SingleBlock(bs: seq<Block>, start: nat, end: nat)
    requires Tiles(bs, start, end)
    ensures |bs| == 1 <==> bs[0].End() == end
  {
    Bounds(bs, start, end);
  }

  lemma TailShape(bs: seq<Block>, start: nat, end: nat)
    requires HeapShape(bs, start, end) && |bs| > 1
    ensures HeapShape(bs[1..], bs[0].End(), end) && bs == [bs[0]] + bs[1..]
  {
  }

  /** The canonical form: the region and the live set determine the whole block list. */
  lemma {:induction false} Canonical(bs: seq<Block>, cs: seq<Block>, start: nat, end: nat)
    requires HeapShape(bs, start, end) && HeapShape(cs, start, end) && Live(bs) == Live(cs)
    ensures bs == cs
    decreases |bs|
  {
    hide Live, Coalesced;
    FirstBlockLe(bs, cs, start, end);
    FirstBlockLe(cs, bs, start, end);
    assert bs[0] == cs[0];
    SingleBlock(bs, start, end);
    SingleBlock(cs, start, end);
    if |bs| > 1 {
      LiveTail(bs, start, end);
      LiveTail(cs, start, end);
      TailShape(bs, start, end);
      TailShape(cs, start, end);
      Canonical(bs[1..], cs[1..], bs[0].End(), end);
    }
  }

  // ---------- Free and realloc ----------

  lemma FreeKeeps(bs: seq<Block>, p: nat, bs': seq<Block>, start: nat, end: nat) returns (b: Block)
    requires HeapShape(bs, start, end) && FreeStep(bs, p, bs')
    ensures HeapShape(bs', start, end)
    ensures b in bs && b.Data() == p == b.addr + 16 && Live(bs') == Live(bs) - {b}
  {
    var k: nat :| k < |bs| && bs[k].Data() == p && bs' == Release(bs, k);
    ReleaseKeeps(bs, k, start, end);
    b := bs[k];
  }

  lemma FreeDeterministic(bs: seq<Block>, p: nat, r: seq<Block>, s: seq<Block>, start: nat, end: nat)
    requires Tiles(bs, start, end) && FreeStep(bs, p, r) && FreeStep(bs, p, s)
    ensures r == s
  {
    var k: nat :| k < |bs| && bs[k].Data() == p && r == Release(bs, k);
    var l: nat :| l < |bs| && bs[l].Data() == p && s == Release(bs, l);
    SameAddress(bs, start, end, k, l);
  }

  lemma LiveGrow(bs: seq<Block>, k: nat, start: nat, end: nat)
    requires Tiles(bs, start, end) && k + 1 < |bs| && bs[k].used && !bs[k + 1].used
    ensures Live(Merge(bs, k)) == Live(bs) - {bs[k]} + {Merge(bs, k)[k]}
  {
    var r := Merge(bs, k);
    forall c | c in Live(bs) && c != bs[k] ensures c in Live(r) {
      var i :| 0 <= i < |bs| && bs[i] == c;
      assert r[if i < k then i else i - 1] == c;
    }
    forall c | c in Live(r) && c != r[k] ensures c in Live(bs) - {bs[k]} {
      var i :| 0 <= i < |r| && r[i] == c;
      var j := if i < k then i else i + 1;
      assert bs[j] == c;
      if bs[j] == bs[k] { SameAddress(bs, start, end, j, k); }
    }
    assert r[k] in Live(r);
  }

  /** The block list between the two halves of growing in place. */
  lemma MergeUsed(bs: seq<Block>, k: nat, start: nat, end: nat)
    requires HeapShape(bs, start, end) && k + 1 < |bs| && bs[k].used && !bs[k + 1].used
    ensures HeapShape(Merge(bs, k), start, end) && Merge(bs, k)[k].used
    ensures k + 1 < |Merge(bs, k)| ==> Merge(bs, k)[k + 1].used
  {
  }

  lemma SplitUsed(m: seq<Block>, k: nat, n: nat, start: nat, end: nat)
    requires HeapShape(m, start, end) && k < |m| && m[k].used && n + HEADER <= m[k].size
    requires k + 1 < |m| ==> m[k + 1].used
    ensures HeapShape(Split(m, k, n), start, end)
    ensures Split(m, k, n)[k] == Block(m[k].addr, n, true)
  {
  }

  lemma NotElsewhere(bs: seq<Block>, k: nat, b: Block, start: nat, end: nat)
    requires Tiles(bs, start, end) && k < |bs| && b.addr == bs[k].addr
    ensures b !in Live(bs) - {bs[k]}
  {
    if b in Live(bs) {
      SameBlock(bs, start, end, b, bs[k]);
    }
  }

  /** Growing in place keeps the block's address and gives it at least n bytes. */
  lemma {:induction false} GrowKeeps(bs: seq<Block>, k: nat, n: nat, start: nat, end: nat) returns (b: Block)
    requires HeapShape(bs, start, end) && k < |bs| && bs[k].used && CanGrow(bs, k, n)
    ensures HeapShape(Grow(bs, k, n), start, end)
    ensures b.used && b.addr == bs[k].addr && n <= b.size
    ensures Live(Grow(bs, k, n)) == Live(bs) - {bs[k]} + {b}
  {
    hide Live, Split, Coalesced;
    var m := Merge(bs, k);
    MergeUsed(bs, k, start, end);
    LiveGrow(bs, k, start, end);
    b := m[k];
    if WorthSplitting(m[k].size, n) {
      SplitUsed(m, k, n, start, end);
      LiveSplit(m, k, n, start, end);
      NotElsewhere(bs, k, m[k], start, end);
      b := Block(m[k].addr, n, true);
    }
  }

  lemma LiveMember(bs: seq<Block>, b: Block)
    ensures b in Live(bs) <==> b in bs && b.used
  {
  }

  /** The moving branch of `krealloc`: allocate, then free the old block. */
  lemma {:induction false} MoveKeeps(bs: seq<Block>, k: nat, n: nat, bs': seq<Block>, q: nat, start: nat, end: nat)
    returns (c: Block)
    requires HeapShape(bs, start, end) && k < |bs| && bs[k].used && MoveStep(bs, bs[k].Data(), n, bs', q)
    ensures HeapShape(bs', start, end)
    ensures c.used && c.Data() == q && n <= c.size && c !in Live(bs)
    ensures Live(bs') == Live(bs) - {bs[k]} + {c}
  {
    hide Live, Coalesced, AllocStep, FreeStep;
    var b := bs[k];
    var middle :| AllocStep(bs, n, middle, q) && FreeStep(middle, b.Data(), bs');
    c := AllocKeeps(bs, n, middle, q, start, end);
    var freed := FreeKeeps(middle, b.Data(), bs', start, end);
    LiveMember(bs, b);
    LiveMember(middle, b);
    SameBlock(middle, start, end, b, freed);
  }

  lemma LiveDisjoint(bs: seq<Block>, k: nat, bs': seq<Block>, c: Block, start: nat, end: nat)
    requires HeapShape(bs, start, end) && HeapShape(bs', start, end) && k < |bs| && bs[k].used
    requires Live(bs') == Live(bs) - {bs[k]} + {c}
    requires c !in Live(bs) || c == bs[k]
    ensures forall d :: d in Live(bs) && d != bs[k] ==> d.End() <= c.addr || c.End() <= d.addr
  {
    assert c in Live(bs');
    forall d | d in Live(bs) && d != bs[k] ensures d.End() <= c.addr || c.End() <= d.addr {
      assert d in Live(bs');
      PayloadsDisjoint(bs', start, end, d, c);
    }
  }

  /** Reallocation replaces exactly one live block by one of at least the asked size
      and at least the old size, disjoint from every other live block. */
  lemma {:induction false} ReallocKeeps(bs: seq<Block>, p: nat, n: nat, bs': seq<Block>, q: nat, start: nat, end: nat)
    returns (b: Block, c: Block)
    requires HeapShape(bs, start, end) && ReallocStep(bs, p, n, bs', q)
    ensures HeapShape(bs', start, end)
    ensures b in Live(bs) && b.Data() == p
    ensures c.used && c.Data() == q && n <= c.size && b.size <= c.size
    ensures Live(bs') == Live(bs) - {b} + {c}
    ensures forall d :: d in Live(bs) && d != b ==> d.End() <= c.addr || c.End() <= d.addr
  {
    hide MoveStep, Grow, Coalesced;
    var k: nat :| k < |bs| && bs[k].used && bs[k].Data() == p && ReallocAt(bs, k, n, bs', q);
    b := bs[k];
    if n <= bs[k].size {
      c := b;
      assert Live(bs') == Live(bs) - {b} + {c};
    } else if CanGrow(bs, k, n) {
      c := GrowKeeps(bs, k, n, start, end);
      if c in Live(bs) {
        SameBlock(bs, start, end, c, bs[k]);
      }
    } else {
      c := MoveKeeps(bs, k, n, bs', q, start, end);
    }
    LiveDisjoint(bs, k, bs', c, start, end);
  }

  // ---------- The steps in terms of addresses and sizes ----------

  /** A heap list: blocks of a 16-byte header and a payload follow each other through the
      region, and of two neighbours one is used. */
  lemma ShapeMeans(bs: seq<Block>, start: nat, end: nat)
    ensures HeapShape(bs, start, end) <==>
              && |bs| > 0 && bs[0].addr == start && bs[|bs| - 1].addr + 16 + bs[|bs| - 1].size == end
              && forall i :: 0 <= i < |bs| - 1 ==>
                   bs[i].addr + 16 + bs[i].size == bs[i + 1].addr && (bs[i].used || bs[i + 1].used)
  {
  }

  /** An allocation takes the first free block of minimal sufficient size. What is left of it
      becomes a free block when that is more than 20 bytes, and is given away otherwise. */
  lemma AllocMeans(bs: seq<Block>, n: nat, bs': seq<Block>, p: nat) returns (k: nat)
    requires AllocStep(bs, n, bs', p)
    ensures k < |bs| && !bs[k].used && n <= bs[k].size && p == bs[k].addr + 16
    ensures forall j :: 0 <= j < |bs| && !bs[j].used && n <= bs[j].size ==>
              bs[k].size <= bs[j].size && (bs[k].size == bs[j].size ==> k <= j)
    ensures bs' == bs[..k]
                   + (if bs[k].size > n + 20
                      then [Block(p - 16, n, true), Block(p + n, bs[k].size - n - 16, false)]
                      else [Block(p - 16, bs[k].size, true)])
                   + bs[k + 1..]
  {
    k :| IsBestFit(bs, n, k) && bs' == Take(bs, k, n) && p == bs[k].Data();
    assert !WorthSplitting(bs[k].size, n) ==> SetUsed(bs, k, true) == bs[..k] + [bs[k].(used := true)] + bs[k + 1..];
  }

  /** An allocation exists exactly when a free block is large enough. */
  lemma AllocPossible(bs: seq<Block>, n: nat)
    ensures (exists bs', p :: AllocStep(bs, n, bs', p)) <==> exists j :: 0 <= j < |bs| && !bs[j].used && n <= bs[j].size
  {
    BestFitExists(bs, n);
    if exists k: nat :: IsBestFit(bs, n, k) {
      var k: nat :| IsBestFit(bs, n, k);
      assert AllocStep(bs, n, Take(bs, k, n), bs[k].Data());
    }
  }

  /** `krealloc` of block k stays where it is exactly when the block is large enough or its
      successor is free and large enough with it; the list changes only for a request beyond
      the block's size, and the block then has at most 20 bytes too many. Otherwise it moves
      to the first free block of minimal sufficient size. */
  lemma ReallocMeans(bs: seq<Block>, k: nat, n: nat, bs': seq<Block>, q: nat, start: nat, end: nat)
    returns (c: Block)
    requires HeapShape(bs, start, end) && k < |bs| && ReallocStep(bs, bs[k].addr + 16, n, bs', q)
    ensures q == bs[k].addr + 16 <==>
              n <= bs[k].size || (k + 1 < |bs| && !bs[k + 1].used && n <= bs[k].size + 16 + bs[k + 1].size)
    ensures n <= bs[k].size ==> bs' == bs
    ensures c in bs' && c.used && q == c.addr + 16 && n <= c.size && (bs[k].size < n ==> c.size <= n + 20)
    ensures q != bs[k].addr + 16 ==>
              exists l :: 0 <= l < |bs| && !bs[l].used && n <= bs[l].size && q == bs[l].addr + 16
                          && forall j :: 0 <= j < |bs| && !bs[j].used && n <= bs[j].size ==>
                               bs[l].size <= bs[j].size && (bs[l].size == bs[j].size ==> l <= j)
  {
    hide MoveStep, Grow, Coalesced;
    var i: nat :| i < |bs| && bs[i].used && bs[i].Data() == bs[k].addr + 16 && ReallocAt(bs, i, n, bs', q);
    SameAddress(bs, start, end, i, k);
    if n <= bs[k].size {
      c := bs[k];
    } else if CanGrow(bs, k, n) {
      c := GrownBlock(bs, k, n);
    } else {
      c := MovedMeans(bs, k, n, bs', q, start, end);
    }
  }

  lemma MovedMeans(bs: seq<Block>, k: nat, n: nat, bs': seq<Block>, q: nat, start: nat, end: nat) returns (c: Block)
    requires HeapShape(bs, start, end) && k < |bs| && bs[k].used && MoveStep(bs, bs[k].Data(), n, bs', q)
    ensures q != bs[k].addr + 16 && c in bs' && c.used && q == c.addr + 16 && n <= c.size <= n + 20
    ensures exists l :: 0 <= l < |bs| && !bs[l].used && n <= bs[l].size && q == bs[l].addr + 16
                        && forall j :: 0 <= j < |bs| && !bs[j].used && n <= bs[j].size ==>
                             bs[l].size <= bs[j].size && (bs[l].size == bs[j].size ==> l <= j)
  {
    hide AllocStep, FreeStep;
    var middle :| AllocStep(bs, n, middle, q) && FreeStep(middle, bs[k].Data(), bs');
    var l := AllocMeans(bs, n, middle, q);
    if q == bs[k].addr + 16 { SameAddress(bs, start, end, k, l); }
    c := MovedBlock(bs, k, n, middle, bs', q, start, end);
  }

  lemma GrownBlock(bs: seq<Block>, k: nat, n: nat) returns (c: Block)
    requires k < |bs| && bs[k].used && CanGrow(bs, k, n)
    ensures c in Grow(bs, k, n) && c.used && c.addr == bs[k].addr && n <= c.size <= n + 20
  {
    c := Grow(bs, k, n)[k];
  }

  lemma MovedBlock(bs: seq<Block>, k: nat, n: nat, middle: seq<Block>, bs': seq<Block>, q: nat, start: nat, end: nat)
    returns (c: Block)
    requires HeapShape(bs, start, end) && k < |bs| && bs[k].used
    requires AllocStep(bs, n, middle, q) && FreeStep(middle, bs[k].Data(), bs')
    ensures c in bs' && c.used && q == c.addr + 16 && n <= c.size <= n + 20
  {
    hide Live, AllocStep, FreeStep, Coalesced;
    c := AllocKeeps(bs, n, middle, q, start, end);
    var freed := FreeKeeps(middle, bs[k].Data(), bs', start, end);
    LiveMember(bs, bs[k]);
    LiveMember(middle, bs[k]);
    LiveMember(bs', c);
    SameBlock(middle, start, end, bs[k], freed);
  }

  /** It fails exactly when it has to move and no free block is large enough. */
  lemma ReallocHaltsMeans(bs: seq<Block>, k: nat, n: nat)
    requires k < |bs|
    ensures ReallocHalts(bs, k, n) <==>
              && bs[k].size < n
              && !(k + 1 < |bs| && !bs[k + 1].used && n <= bs[k].size + 16 + bs[k + 1].size)
              && forall j :: 0 <= j < |bs| ==> bs[j].used || bs[j].size < n
  {
  }

  // ---------- What operations undo ----------

  /** Freeing what an allocation just handed out restores the block list exactly,
      whether the block was split or not. */
  lemma AllocThenFree(bs: seq<Block>, n: nat, middle: seq<Block>, p: nat, bs': seq<Block>, start: nat, end: nat)
    requires HeapShape(bs, start, end) && AllocStep(bs, n, middle, p) && FreeStep(middle, p, bs')
    ensures bs' == bs
  {
    var b := AllocKeeps(bs, n, middle, p, start, end);
    var c := FreeKeeps(middle, p, bs', start, end);
    assert b in Live(middle);
    SameBlock(middle, start, end, b, c);
    Canonical(bs', bs, start, end);
  }

  /** Two frees commute. */
  lemma FreesCommute(bs: seq<Block>, p: nat, q: nat, bp: seq<Block>, bpq: seq<Block>, bq: seq<Block>, bqp: seq<Block>,
                     start: nat, end: nat)
    requires HeapShape(bs, start, end)
    requires forall b :: b in bs && (b.Data() == p || b.Data() == q) ==> b.used
    requires FreeStep(bs, p, bp) && FreeStep(bp, q, bpq)
    requires FreeStep(bs, q, bq) && FreeStep(bq, p, bqp)
    ensures bpq == bqp
  {
    var b := FreeKeeps(bs, p, bp, start, end);
    var c := FreeKeeps(bp, q, bpq, start, end);
    var d := FreeKeeps(bs, q, bq, start, end);
    var e := FreeKeeps(bq, p, bqp, start, end);
    assert Live(bpq) == Live(bs) - {b, d} by { LiveAt(bs, bp, b, d, c, start, end); }
    assert Live(bqp) == Live(bs) - {b, d} by { LiveAt(bs, bq, d, b, e, start, end); }
    Canonical(bpq, bqp, start, end);
  }

  /** After block b is freed, freeing at the address of the live block d removes d or,
      when the address no longer carries a live block, removes nothing. */
  lemma LiveAt(bs: seq<Block>, bs': seq<Block>, b: Block, d: Block, found: Block, start: nat, end: nat)
    requires HeapShape(bs, start, end) && HeapShape(bs', start, end)
    requires b in Live(bs) && d in Live(bs) && found in bs' && found.addr == d.addr
    requires Live(bs') == Live(bs) - {b}
    ensures Live(bs') - {found} == Live(bs) - {b, d}
  {
    if d != b {
      assert d in Live(bs');
      SameBlock(bs', start, end, d, found);
    } else if found in Live(bs') {
      SameBlock(bs, start, end, b, found);
    }
  }

  /** A heap without live blocks is the single free block that `create_heap` makes. */
  lemma EmptyHeapIsInitial(bs: seq<Block>, start: nat, end: nat)
    requires HeapShape(bs, start, end)
    ensures start + HEADER <= end
    ensures Live(bs) == {} <==> bs == Initial(start, end)
  {
    Bounds(bs, start, end);
    assert bs[0].End() <= end;
    if Live(bs) == {} {
      Canonical(bs, Initial(start, end), start, end);
    }
  }

  // ---------- Runs ----------

  datatype Op = OpAlloc(n: nat) | OpFree(p: nat) | OpRealloc(p: nat, n: nat)

  ghost predicate HeapStep(bs: seq<Block>, op: Op, bs': seq<Block>) {
    match op
    case OpAlloc(n) => exists p :: AllocStep(bs, n, bs', p)
    case OpFree(p) => FreeStep(bs, p, bs')
    case OpRealloc(p, n) => exists q :: ReallocStep(bs, p, n, bs', q)
  }

  /** A run: the heap's block lists, one before the first operation and one after each. */
  ghost predicate HeapRun(states: seq<seq<Block>>, ops: seq<Op>, start: nat, end: nat) {
    && start + HEADER <= end
    && |states| == |ops| + 1
    && states[0] == Initial(start, end)
    && forall i :: 0 <= i < |ops| ==> HeapStep(states[i], ops[i], states[i + 1])
  }

  lemma StepKeeps(bs: seq<Block>, op: Op, bs': seq<Block>, start: nat, end: nat)
    requires HeapShape(bs, start, end) && HeapStep(bs, op, bs')
    ensures HeapShape(bs', start, end)
  {
    match op
    case OpAlloc(n) =>
      var p :| AllocStep(bs, n, bs', p);
      var b := AllocKeeps(bs, n, bs', p, start, end);
    case OpFree(p) =>
      var b := FreeKeeps(bs, p, bs', start, end);
    case OpRealloc(p, n) =>
      var q :| ReallocStep(bs, p, n, bs', q);
      var b, c := ReallocKeeps(bs, p, n, bs', q, start, end);
  }

  /** Every state of every run tiles the region, is coalesced and conserves its bytes. */
  lemma {:induction false} RunKeeps(states: seq<seq<Block>>, ops: seq<Op>, start: nat, end: nat, i: nat)
    requires HeapRun(states, ops, start, end) && i < |states|
    ensures HeapShape(states[i], start, end) && Sizes(states[i]) == end - start
  {
    if i > 0 {
      RunKeeps(states, ops, start, end, i - 1);
      StepKeeps(states[i - 1], ops[i - 1], states[i], start, end);
    }
    TotalConserved(states[i], start, end);
  }

  /** The whole heap is a function of its live blocks: two runs over the same region,
      however long and in whatever order, that end with the same live blocks end with
      the same block list; and a run ends with none exactly when it ends as it began. */
  lemma RunsAgree(s: seq<seq<Block>>, ops: seq<Op>, t: seq<seq<Block>>, ops': seq<Op>, start: nat, end: nat)
    requires HeapRun(s, ops, start, end) && HeapRun(t, ops', start, end)
    ensures Live(s[|ops|]) == Live(t[|ops'|]) <==> s[|ops|] == t[|ops'|]
    ensures Live(s[|ops|]) == {} <==> s[|ops|] == s[0]
  {
    RunKeeps(s, ops, start, end, |ops|);
    RunKeeps(t, ops', start, end, |ops'|);
    if Live(s[|ops|]) == Live(t[|ops'|]) {
      Canonical(s[|ops|], t[|ops'|], start, end);
    }
    EmptyHeapIsInitial(s[|ops|], start, end);
  }

  /** Freeing every live block once, in any order, gives back the initial heap. */
  lemma {:induction false} FreeAllRestores(states: seq<seq<Block>>, order: seq<Block>, start: nat, end: nat)
    requires |states| == |order| + 1 && HeapShape(states[0], start, end)
    requires forall b :: b in order <==> b in Live(states[0])
    requires forall i, j :: 0 <= i < j < |order| ==> order[i] != order[j]
    requires forall i :: 0 <= i < |order| ==> FreeStep(states[i], order[i].Data(), states[i + 1])
    ensures start + HEADER <= end && states[|order|] == Initial(start, end)
    decreases |order|
  {
    if order == [] {
      assert Live(states[0]) == {};
      EmptyHeapIsInitial(states[0], start, end);
    } else {
      var first := order[0];
      var b := FreeKeeps(states[0], first.Data(), states[1], start, end);
      assert first in order;
      SameBlock(states[0], start, end, first, b);
      assert Live(states[1]) == Live(states[0]) - {first};
      forall c ensures c in order[1..] <==> c in Live(states[1]) {
        if c in Live(states[1]) {
          assert c in order;
        }
      }
      FreeAllRestores(states[1..], order[1..], start, end);
    }
  }
}
