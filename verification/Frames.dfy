/** The physical frame bitset (kernel/page.cpp:10-58, 122-135). */
module Frames {

  // 64 MB of physical memory in 4 KB frames (kernel/page.cpp:120-124).
  const NFRAMES: nat := 0x4000
  const LOCKED: nat := 0x800

  /** `0x1 << j` */
  function Bit(j: nat): bv32 {
    if j == 0 then 1 else Bit(j - 1) << 1
  }

  predicate Has(w: bv32, b: bv32) { w & b != 0 }

  predicate Apart(b: bv32, c: bv32) { b & c == 0 }

  function Or(w: bv32, b: bv32): bv32 { w | b }

  function AndNot(w: bv32, b: bv32): bv32 { w & !b }

  predicate Test(w: bv32, j: nat) { Has(w, Bit(j)) }

  /** `w |= 0x1 << j` */
  function With(w: bv32, j: nat): bv32 { Or(w, Bit(j)) }

  /** `w &= ~(0x1 << j)` */
  function Without(w: bv32, j: nat): bv32 { AndNot(w, Bit(j)) }

  lemma BitValues()
    ensures Bit(0) == 0x1 && Bit(1) == 0x2 && Bit(2) == 0x4 && Bit(3) == 0x8
    ensures Bit(4) == 0x10 && Bit(5) == 0x20 && Bit(6) == 0x40 && Bit(7) == 0x80
    ensures Bit(8) == 0x100 && Bit(9) == 0x200 && Bit(10) == 0x400 && Bit(11) == 0x800
    ensures Bit(12) == 0x1000 && Bit(13) == 0x2000 && Bit(14) == 0x4000 && Bit(15) == 0x8000
    ensures Bit(16) == 0x10000 && Bit(17) == 0x20000 && Bit(18) == 0x40000 && Bit(19) == 0x80000
    ensures Bit(20) == 0x100000 && Bit(21) == 0x200000 && Bit(22) == 0x400000 && Bit(23) == 0x800000
    ensures Bit(24) == 0x1000000 && Bit(25) == 0x2000000 && Bit(26) == 0x4000000 && Bit(27) == 0x8000000
    ensures Bit(28) == 0x10000000 && Bit(29) == 0x20000000 && Bit(30) == 0x40000000 && Bit(31) == 0x80000000
  {
  }

  lemma BitNotZero(j: nat)
    requires j < 32
    ensures Bit(j) != 0
  {
    hide Bit;
    BitValues();
  }

  lemma ShiftBoth(b: bv32, c: bv32)
    requires b & c == 0
    ensures (b << 1) & (c << 1) == 0
  {
  }

  lemma LowBit(c: bv32)
    ensures 1 & (c << 1) == 0 && (c << 1) & 1 == 0
  {
  }

  /** Two different bits do not overlap. */
  lemma {:induction false} BitsApart(j: nat, k: nat)
    requires j != k
    ensures Apart(Bit(j), Bit(k))
  {
    if j == 0 {
      LowBit(Bit(k - 1));
    } else if k == 0 {
      LowBit(Bit(j - 1));
    } else {
      BitsApart(j - 1, k - 1);
      ShiftBoth(Bit(j - 1), Bit(k - 1));
    }
  }

  lemma OrOther(w: bv32, b: bv32, c: bv32)
    requires b & c == 0
    ensures (w | b) & c == w & c
  {
    calc {
      (w | b) & c;
      (w & c) | (b & c);
      (w & c) | 0;
      w & c;
    }
  }

  lemma NotOther(w: bv32, b: bv32, c: bv32)
    requires b & c == 0
    ensures (w & !b) & c == w & c
  {
    calc {
      (w & !b) & c;
      w & ((!b & c) | 0);
      w & ((!b & c) | (b & c));
      w & c;
    }
  }

  lemma HasOther(w: bv32, b: bv32, c: bv32)
    requires Apart(b, c)
    ensures Has(Or(w, b), c) == Has(w, c) && Has(AndNot(w, b), c) == Has(w, c)
  {
    OrOther(w, b, c);
    NotOther(w, b, c);
  }

  lemma HasSame(w: bv32, b: bv32)
    requires b != 0
    ensures Has(Or(w, b), b) && !Has(AndNot(w, b), b)
  {
  }

  /** Setting or clearing bit j changes bit j only. */
  lemma OneBit(w: bv32, j: nat, k: nat)
    requires j < 32 && k < 32
    ensures Test(With(w, j), k) <==> k == j || Test(w, k)
    ensures Test(Without(w, j), k) <==> k != j && Test(w, k)
  {
    hide Bit, Has, Apart, Or, AndNot;
    if j != k {
      BitsApart(j, k);
      HasOther(w, Bit(j), Bit(k));
    } else {
      BitNotZero(j);
      HasSame(w, Bit(j));
    }
  }

  lemma FullWord(j: nat)
    requires j < 32
    ensures Test(0xFFFFFFFF, j) && !Test(0, j)
  {
    hide Bit;
    BitNotZero(j);
  }

  /** Only the full word has every bit set. */
  lemma AllBits(w: bv32)
    requires forall j :: 0 <= j < 32 ==> Test(w, j)
    ensures w == 0xFFFFFFFF
  {
    hide Bit;
    BitValues();
    assert Test(w, 0) && Test(w, 1) && Test(w, 2) && Test(w, 3) && Test(w, 4) && Test(w, 5) && Test(w, 6) && Test(w, 7);
    assert Test(w, 8) && Test(w, 9) && Test(w, 10) && Test(w, 11);
    assert Test(w, 12) && Test(w, 13) && Test(w, 14) && Test(w, 15);
    assert Test(w, 16) && Test(w, 17) && Test(w, 18) && Test(w, 19);
    assert Test(w, 20) && Test(w, 21) && Test(w, 22) && Test(w, 23);
    assert Test(w, 24) && Test(w, 25) && Test(w, 26) && Test(w, 27);
    assert Test(w, 28) && Test(w, 29) && Test(w, 30) && Test(w, 31);
  }

  /** The least frame from f on that is not marked; 0 when there is none. */
  function FirstFreeFrom(marked: set<nat>, f: nat): (r: nat)
    requires f <= NFRAMES
    ensures if forall g :: f <= g < NFRAMES ==> g in marked then r == 0
            else f <= r < NFRAMES && r !in marked && forall g :: f <= g < r ==> g in marked
    decreases NFRAMES - f
  {
    if f == NFRAMES then 0 else if f !in marked then f else FirstFreeFrom(marked, f + 1)
  }

  function FirstFree(marked: set<nat>): nat { FirstFreeFrom(marked, 0) }

  /** 64 MB are 16384 frames. */
  lemma FirstFreeMeans(marked: set<nat>)
    ensures var r := FirstFree(marked);
            if forall f: nat :: f < 16384 ==> f in marked then r == 0
            else r < 16384 && r !in marked && forall f: nat :: f < r ==> f in marked
  {
  }

  lemma FirstFreeIs(marked: set<nat>, r: nat)
    requires r < NFRAMES && r !in marked && forall g: nat :: g < r ==> g in marked
    ensures FirstFree(marked) == r
  {
  }

  /** The inner loop of `first_frame` (kernel/page.cpp:49-54). */
  method FirstZero(w: bv32) returns (j: nat)
    requires w != 0xFFFFFFFF
    ensures j < 32 && !Test(w, j) && forall k :: 0 <= k < j ==> Test(w, k)
  {
    hide Test;
    j := 0;
    while j < 32
      invariant j <= 32 && forall k :: 0 <= k < j ==> Test(w, k)
    {
      if !Test(w, j) { return; }
      j := j + 1;
    }
    AllBits(w);
    assert false;
  }

  class FrameSet {
    const words: array<bv32>

    ghost predicate Valid() { words.Length == NFRAMES / 32 }

    ghost predicate IsMarked(f: nat)
      requires Valid()
      reads words
    {
      f < NFRAMES && Test(words[f / 32], f % 32)
    }

    ghost function Marked(): (s: set<nat>)
      requires Valid()
      reads words
    {
      set f: nat | f < NFRAMES && IsMarked(f)
    }

    /** The bitset of `initialise_paging`: all zero, then the low 2048 frames locked. */
    constructor ()
      ensures Valid() && fresh(words)
      ensures forall f: nat :: f in Marked() <==> f < 2048
    {
      words := new bv32[NFRAMES / 32](_ => 0);
      new;
      for i := 0 to LOCKED / 32
        invariant forall k :: 0 <= k < NFRAMES / 32 ==> words[k] == if k < i then 0xFFFFFFFF else 0
      {
        words[i] := 0xFFFFFFFF;
      }
      forall f: nat | f < NFRAMES ensures IsMarked(f) <==> f < LOCKED {
        FullWord(f % 32);
      }
    }

    /** `set_frame` (kernel/page.cpp:21-26). */
    method SetFrame(frameAddr: nat)
      requires Valid() && frameAddr / 0x1000 < NFRAMES
      modifies words
      ensures Marked() == old(Marked()) + {frameAddr / 0x1000}
    {
      var frame := frameAddr / 0x1000;
      var idx, off := frame / 32, frame % 32;
      hide Test, With, Without;
      ghost var w := words[idx];
      words[idx] := With(words[idx], off);
      forall f: nat | f < NFRAMES ensures IsMarked(f) <==> f == frame || old(IsMarked(f)) {
        if f / 32 == idx { OneBit(w, off, f % 32); }
      }
    }

    /** `clear_frame` (kernel/page.cpp:29-34). */
    method ClearFrame(frameAddr: nat)
      requires Valid() && frameAddr / 0x1000 < NFRAMES
      modifies words
      ensures Marked() == old(Marked()) - {frameAddr / 0x1000}
    {
      var frame := frameAddr / 0x1000;
      var idx, off := frame / 32, frame % 32;
      hide Test, With, Without;
      ghost var w := words[idx];
      words[idx] := Without(words[idx], off);
      forall f: nat | f < NFRAMES ensures IsMarked(f) <==> f != frame && old(IsMarked(f)) {
        if f / 32 == idx { OneBit(w, off, f % 32); }
      }
    }

    /** `first_frame` (kernel/page.cpp:45-58): the least free frame, and 0 when none is left. */
    method FirstFrame() returns (r: nat)
      requires Valid()
      ensures r == FirstFree(Marked())
      ensures if forall f: nat :: f < 16384 ==> f in Marked() then r == 0
              else r < 16384 && r !in Marked() && forall f: nat :: f < r ==> f in Marked()
    {
      hide Test, FirstFreeFrom, FirstFree;
      FirstFreeMeans(Marked());
      for i := 0 to NFRAMES / 32
        invariant forall f: nat :: f < i * 32 ==> IsMarked(f)
      {
        if words[i] != 0xFFFFFFFF {
          var j := FirstZero(words[i]);
          r := i * 32 + j;
          assert r / 32 == i && r % 32 == j;
          forall f: nat | f < r ensures IsMarked(f) {
            if f >= i * 32 { assert Test(words[i], f % 32); }
          }
          FirstFreeIs(Marked(), r);
          return;
        }
        forall f: nat | f < (i + 1) * 32 ensures IsMarked(f) {
          if f >= i * 32 { FullWord(f % 32); }
        }
      }
      r := 0;
    }
  }
}
