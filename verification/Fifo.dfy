/** The byte FIFO (kernel/fs/fifo.cpp:11-25). */
module Fifo {
  import opened Memory

  const CAPACITY: nat := 0xff

  // ---------- The queue it implements ----------

  /** What one call does to the queued bytes, and the bytes that a read delivers. */
  datatype Call = Read(nbyte: nat) | Write(data: seq<Byte>)

  /** All or nothing: a read that asks for more than is queued gets nothing. */
  function Served(queue: seq<Byte>, call: Call): (k: nat)
    ensures k <= |queue|
  {
    if call.Read? && call.nbyte <= |queue| then call.nbyte else 0
  }

  function After(queue: seq<Byte>, call: Call): seq<Byte> {
    if call.Write? then queue + call.data else queue[Served(queue, call)..]
  }

  /** A write joins the end; a read takes all it asks for from the front, or nothing. */
  lemma AfterMeans(queue: seq<Byte>, data: seq<Byte>)
    ensures After(queue, Write(data)) == queue + data
  {
  }

  lemma ReadMeans(queue: seq<Byte>, nbyte: nat)
    ensures Served(queue, Read(nbyte)) == if nbyte <= |queue| then nbyte else 0
    ensures After(queue, Read(nbyte)) == queue[if nbyte <= |queue| then nbyte else 0..]
  {
  }

  /** The bytes that the reads of a run deliver, one read after the other. */
  function Delivered(queue: seq<Byte>, run: seq<Call>): seq<Byte>
    decreases |run|
  {
    if run == [] then [] else queue[..Served(queue, run[0])] + Delivered(After(queue, run[0]), run[1..])
  }

  function Left(queue: seq<Byte>, run: seq<Call>): seq<Byte>
    decreases |run|
  {
    if run == [] then queue else Left(After(queue, run[0]), run[1..])
  }

  function Written(run: seq<Call>): seq<Byte> {
    if run == [] then [] else (if run[0].Write? then run[0].data else []) + Written(run[1..])
  }

  lemma CallConserves(queue: seq<Byte>, call: Call)
    ensures queue[..Served(queue, call)] + After(queue, call) == queue + (if call.Write? then call.data else [])
  {
  }

  /** No byte is lost, invented or reordered. */
  lemma {:induction false} FirstInFirstOut(queue: seq<Byte>, run: seq<Call>)
    ensures Delivered(queue, run) + Left(queue, run) == queue + Written(run)
    decreases |run|
  {
    hide After, Served;
    if run != [] {
      var call, rest := run[0], run[1..];
      var next := After(queue, call);
      CallConserves(queue, call);
      FirstInFirstOut(next, rest);
      calc {
        Delivered(queue, run) + Left(queue, run);
        queue[..Served(queue, call)] + (Delivered(next, rest) + Left(next, rest));
        queue[..Served(queue, call)] + (next + Written(rest));
        (queue[..Served(queue, call)] + next) + Written(rest);
        queue + Written(run);
      }
    }
  }

  /** A byte stays queued only while no later read could take it: a run that ends with a
      read of everything that is left has delivered all that was written. */
  lemma DrainDeliversAll(run: seq<Call>)
    ensures Delivered([], run + [Read(|Left([], run)|)]) == Written(run)
  {
    FirstInFirstOut([], run);
    DrainFrom([], run);
    assert [] + Written(run) == Written(run);
  }

  lemma {:induction false} DrainFrom(queue: seq<Byte>, run: seq<Call>)
    ensures Delivered(queue, run + [Read(|Left(queue, run)|)]) == Delivered(queue, run) + Left(queue, run)
    decreases |run|
  {
    hide After;
    var last := Read(|Left(queue, run)|);
    if run == [] {
      assert (run + [last])[1..] == [];
      assert queue[..Served(queue, last)] == queue;
      assert Delivered(queue, run + [last]) == queue + [];
    } else {
      DrainFrom(After(queue, run[0]), run[1..]);
      assert (run + [last])[1..] == run[1..] + [last];
      var next := After(queue, run[0]);
      assert queue[..Served(queue, run[0])] + (Delivered(next, run[1..]) + Left(next, run[1..]))
          == Delivered(queue, run) + Left(queue, run);
    }
  }

  // ---------- Runs that the array holds ----------

  /** Every write of the run finds room for its bytes. */
  predicate WithinCapacity(queue: seq<Byte>, run: seq<Call>)
    decreases |run|
  {
    run == [] || (
      (run[0].Write? ==> |queue| + |run[0].data| <= CAPACITY) && WithinCapacity(After(queue, run[0]), run[1..]))
  }

  /** A run stays within the capacity exactly when the queue does after each of its calls. */
  lemma {:induction false} CapacityExactly(queue: seq<Byte>, run: seq<Call>)
    requires |queue| <= CAPACITY
    ensures WithinCapacity(queue, run) <==> forall i :: 0 <= i <= |run| ==> |Left(queue, run[..i])| <= 255
    decreases |run|
  {
    if run != [] {
      var next := After(queue, run[0]);
      assert |next| <= CAPACITY <==> (run[0].Write? ==> |queue| + |run[0].data| <= CAPACITY);
      forall i | 0 < i <= |run| ensures Left(queue, run[..i]) == Left(next, run[1..][..i - 1]) {
        assert run[..i][1..] == run[1..][..i - 1];
      }
      if |next| <= CAPACITY {
        CapacityExactly(next, run[1..]);
        if forall i :: 0 <= i <= |run| ==> |Left(queue, run[..i])| <= CAPACITY {
          forall i | 0 <= i <= |run[1..]| ensures |Left(next, run[1..][..i])| <= CAPACITY {
            assert Left(queue, run[..i + 1]) == Left(next, run[1..][..i]);
          }
        }
      } else {
        assert Left(queue, run[..1]) == Left(next, run[1..][..0]) == next;
      }
    }
  }

  /** How much may be written: a run of writes alone stays within the capacity exactly when
      all bytes together fit. */
  lemma {:induction false} WritesFit(queue: seq<Byte>, run: seq<Call>)
    requires |queue| <= CAPACITY && forall i :: 0 <= i < |run| ==> run[i].Write?
    ensures WithinCapacity(queue, run) <==> |queue| + |Written(run)| <= 255
    decreases |run|
  {
    if run != [] {
      if |queue| + |run[0].data| <= CAPACITY {
        WritesFit(queue + run[0].data, run[1..]);
      }
    }
  }

  // ---------- The device ----------

  function Slice(m: seq<Byte>, a: nat, b: nat): (r: seq<Byte>)
    requires a <= b <= |m|
    ensures |r| == b - a
  {
    m[a..b]
  }

  /** m with data stored from address a on. */
  function Put(m: seq<Byte>, a: nat, data: seq<Byte>): (r: seq<Byte>)
    requires a + |data| <= |m|
    ensures |r| == |m|
  {
    m[..a] + data + m[a + |data|..]
  }

  lemma PutAt(m: seq<Byte>, a: nat, data: seq<Byte>)
    requires a + |data| <= |m|
    ensures Slice(Put(m, a, data), a, a + |data|) == data
  {
  }

  lemma PutBeside(m: seq<Byte>, a: nat, data: seq<Byte>, lo: nat, hi: nat)
    requires a + |data| <= |m| && lo <= hi <= |m| && (hi <= a || a + |data| <= lo)
    ensures Slice(Put(m, a, data), lo, hi) == Slice(m, lo, hi)
  {
  }

  lemma Joined(m: seq<Byte>, a: nat, b: nat, c: nat)
    requires a <= b <= c <= |m|
    ensures Slice(m, a, c) == Slice(m, a, b) + Slice(m, b, c)
    ensures Slice(m, a, c)[..b - a] == Slice(m, a, b) && Slice(m, a, c)[b - a..] == Slice(m, b, c)
  {
  }

  lemma StoredBeside(m: seq<Byte>, m': seq<Byte>, a: nat, w: nat, lo: nat, hi: nat)
    requires Stored(m, m', a, w) && lo <= hi <= |m| && (hi <= a || a + 4 <= lo)
    ensures Slice(m', lo, hi) == Slice(m, lo, hi)
  {
    hide Word;
  }

  lemma WordBeside(m: seq<Byte>, a: nat, data: seq<Byte>, at: nat)
    requires a + |data| <= |m| && at + 4 <= |m| && (at + 4 <= a || a + |data| <= at)
    ensures Word(Put(m, a, data), at) == Word(m, at)
  {
    var r := Put(m, a, data);
    assert r[at] == m[at] && r[at + 1] == m[at + 1] && r[at + 2] == m[at + 2] && r[at + 3] == m[at + 3];
  }

  /** Memory after the two copies of a read of k bytes. */
  function ReadMemory(m: seq<Byte>, base: nat, size: nat, buf: nat, k: nat): (r: seq<Byte>)
    requires k <= size && base + k + size <= |m| && buf + k <= |m|
    ensures |r| == |m|
  {
    var delivered := Put(m, buf, Slice(m, base, base + k));
    Put(delivered, base, Slice(delivered, base + k, base + k + size))
  }

  /** Nothing else changes outside the array. */
  lemma ReadFrame(m: seq<Byte>, base: nat, size: nat, buf: nat, k: nat)
    requires k <= size <= CAPACITY && base + 2 * CAPACITY <= |m| && buf + k <= |m|
    ensures forall j :: 0 <= j < |m| && !(buf <= j < buf + k) && !(base <= j < base + CAPACITY) ==>
              ReadMemory(m, base, size, buf, k)[j] == m[j]
  {
    hide Slice;
  }

  /** The first k queued bytes are delivered and the others move up. */
  lemma ReadEffect(m: seq<Byte>, base: nat, size: nat, buf: nat, k: nat)
    requires k <= size <= CAPACITY && base + 2 * CAPACITY <= |m| && buf + k <= |m|
    requires buf + k <= base || base + CAPACITY <= buf
    ensures var queue, r := Slice(m, base, base + size), ReadMemory(m, base, size, buf, k);
            && Slice(r, base, base + size - k) == After(queue, Read(k))
            && Slice(r, buf, buf + k) == queue[..k]
  {
    hide Slice, Put;
    var data := Slice(m, base, base + k);
    var m1 := Put(m, buf, data);
    var shifted := Slice(m1, base + k, base + k + size);
    Joined(m, base, base + k, base + size);
    PutAt(m, buf, data);
    PutBeside(m, buf, data, base + k, base + size);
    Joined(m1, base + k, base + size, base + k + size);
    PutAt(m1, base, shifted);
    PutBeside(m1, base, shifted, buf, buf + k);
    Joined(Put(m1, base, shifted), base, base + size - k, base + size);
  }

  lemma WriteEffect(m: seq<Byte>, base: nat, size: nat, data: seq<Byte>)
    requires base + size + |data| <= |m|
    ensures Slice(Put(m, base + size, data), base, base + size + |data|)
         == After(Slice(m, base, base + size), Write(data))
  {
    hide Slice, Put;
    PutAt(m, base + size, data);
    PutBeside(m, base + size, data, base, base + size);
    Joined(Put(m, base + size, data), base, base + size, base + size + |data|);
  }

  /** A copy that does not run over its own source before reading it. */
  method Copy(mem: array<Byte>, dst: nat, src: nat, n: nat)
    requires dst + n <= mem.Length && src + n <= mem.Length && (dst <= src || src + n <= dst)
    modifies mem
    ensures mem[..] == Put(old(mem[..]), dst, Slice(old(mem[..]), src, src + n))
  {
    hide Copied;
    ghost var m := mem[..];
    MemCopy(mem, dst, src, n);
    ghost var m' := mem[..];
    assert m'[dst..dst + n] == m[src..src + n] by {
      assert mem[dst..dst + n] == m'[dst..dst + n] && old(mem[src..src + n]) == m[src..src + n];
    }
    assert m'[..dst] == m[..dst] && m'[dst + n..] == m[dst + n..];
    assert m' == m'[..dst] + m'[dst..dst + n] + m'[dst + n..];
  }

  // The record `char buffer[0xff]; size_t buffer_index;`: the index word is aligned.
  const INDEX_AT: nat := 0x100
  const RECORD: nat := 0x104

  /** What a write leaves in memory before it updates the index: its bytes, which may have
      run over the index word. */
  function AfterCopy(m: seq<Byte>, base: nat, size: nat, data: seq<Byte>): (r: seq<Byte>)
    requires base + size + |data| <= |m|
    ensures |r| == |m|
  {
    Put(m, base + size, data)
  }

  /** The index after a write of data: the word found after the copy, plus the length. */
  function IndexAfter(m: seq<Byte>, base: nat, size: nat, data: seq<Byte>): nat
    requires base + size + |data| <= |m| && base + RECORD <= |m|
  {
    U32(Word(AfterCopy(m, base, size, data), base + INDEX_AT) + |data|)
  }

  /** It is the sum exactly when the copy does not change the index word, and always when the
      bytes end in front of it. */
  lemma IndexIsSum(m: seq<Byte>, base: nat, size: nat, data: seq<Byte>)
    requires base + size + |data| <= |m| && base + RECORD <= |m| && Word(m, base + INDEX_AT) == size
    ensures IndexAfter(m, base, size, data) == U32(size + |data|)
            <==> Word(AfterCopy(m, base, size, data), base + INDEX_AT) == size
    ensures size + |data| <= 256 ==> Word(AfterCopy(m, base, size, data), base + INDEX_AT) == size
  {
    hide Word, Put;
    if size + |data| <= INDEX_AT {
      WordBeside(m, base + size, data, base + INDEX_AT);
    }
    SameSum(Word(AfterCopy(m, base, size, data), base + INDEX_AT), size, |data|);
  }

  lemma SameSum(a: nat, b: nat, n: nat)
    requires a < WORD && b < WORD
    ensures U32(a + n) == U32(b + n) <==> a == b
  {
    if U32(a + n) == U32(b + n) {
      var p, q := (a + n) / WORD, (b + n) / WORD;
      assert a + n == p * WORD + U32(a + n) && b + n == q * WORD + U32(b + n);
      assert a - b == (p - q) * WORD;
    }
  }

  /** 260 bytes written to an empty FIFO: the last four become the index before 260 is added,
      so it is ten afterwards, although 260 bytes do not fit. */
  lemma IndexOverwritten(m: seq<Byte>, base: nat, data: seq<Byte>)
    requires base + RECORD <= |m| && |data| == 260 && data[256..] == [6, 255, 255, 255]
    ensures IndexAfter(m, base, 0, data) == 10
  {
    var r := Put(m, base, data);
    assert r[base + 256] == data[256..][0] && r[base + 257] == data[256..][1];
    assert r[base + 258] == data[256..][2] && r[base + 259] == data[256..][3];
  }

  /** A FIFO whose `buffer` array lies at address base of memory, its index behind it. */
  class Fifo {
    const mem: array<Byte>
    const base: nat

    /** `buffer_index` */
    function Index(): (i: nat)
      requires base + RECORD <= mem.Length
      reads mem
    {
      Word(mem[..], base + INDEX_AT)
    }

    /** The shift on a read copies buffer_index bytes from buffer[nbyte] on, so it looks at
        bytes behind the array; they are only copied behind the queued ones. */
    predicate Valid()
      reads mem
    {
      base + 2 * CAPACITY <= mem.Length && Index() <= CAPACITY
    }

    function Queue(): (q: seq<Byte>)
      requires Valid()
      reads mem
      ensures |q| == Index()
    {
      Slice(mem[..], base, base + Index())
    }

    /** The constructor does not set the index: whether there is a FIFO, and whether it is
        empty, depends on what memory held. */
    constructor (mem: array<Byte>, base: nat)
      requires base + 2 * CAPACITY <= mem.Length
      ensures this.mem == mem && this.base == base
      ensures Valid() <==> Word(mem[..], base + 256) <= 255
      ensures Valid() ==> (Queue() == [] <==> Word(mem[..], base + 256) == 0)
    {
      this.mem, this.base := mem, base;
    }

    /** The caller's bytes lie outside the record. */
    predicate Outside(buf: nat, n: nat) {
      buf + n <= mem.Length && (buf + n <= base || base + RECORD <= buf)
    }

    /** `read`: the delivered bytes lie in the caller's buffer. */
    method ReadBytes(buf: nat, nbyte: nat) returns (n: nat)
      requires Valid() && Outside(buf, nbyte)
      modifies mem
      ensures Valid() && n == Served(old(Queue()), Read(nbyte))
      ensures n == (if nbyte <= |old(Queue())| then nbyte else 0) && Queue() == old(Queue())[n..]
      ensures Queue() == After(old(Queue()), Read(nbyte))
      ensures Slice(mem[..], buf, buf + n) == old(Queue())[..n]
      ensures forall j :: 0 <= j < mem.Length && !(buf <= j < buf + n) && !(base <= j < base + RECORD) ==>
                mem[..][j] == old(mem[..])[j]
      ensures if nbyte <= old(Index())
              then Stored(ReadMemory(old(mem[..]), base, old(Index()), buf, nbyte), mem[..], base + INDEX_AT,
                          old(Index()) - nbyte)
              else mem[..] == old(mem[..])
    {
      hide Put, Slice, After, Word;
      ghost var m := mem[..];
      var size := ReadWord(mem, base + INDEX_AT);
      if size < nbyte {
        NothingRead(m, base, size, buf, nbyte);
        ReadMeans(old(Queue()), nbyte);
        return 0;
      }
      ReadEffect(m, base, size, buf, nbyte);
      ReadMeans(old(Queue()), nbyte);
      ReadFrame(m, base, size, buf, nbyte);
      Copy(mem, buf, base, nbyte);
      Copy(mem, base, base + nbyte, size);
      ghost var r := mem[..];
      WriteWord(mem, base + INDEX_AT, size - nbyte);
      StoredBeside(r, mem[..], base + INDEX_AT, size - nbyte, base, base + size - nbyte);
      StoredBeside(r, mem[..], base + INDEX_AT, size - nbyte, buf, buf + nbyte);
      n := nbyte;
    }

    lemma NothingRead(m: seq<Byte>, base: nat, size: nat, buf: nat, nbyte: nat)
      requires base + size <= |m| && size < nbyte && buf <= |m|
      ensures var queue := Slice(m, base, base + size);
              After(queue, Read(nbyte)) == queue && Slice(m, buf, buf) == queue[..0]
    {
    }

    /** `write` has no bound of its own. The bytes join the queue exactly when they fit; a
        longer write runs over the index word, which is then read back and added to. */
    method WriteBytes(buf: nat, n: nat) returns (r: nat)
      requires Valid() && Outside(buf, n) && base + Index() + n <= mem.Length && n < WORD
      requires buf + n <= base || base + Index() + n <= buf
      modifies mem
      ensures r == n
      ensures var data := Slice(old(mem[..]), buf, buf + n);
              && Stored(AfterCopy(old(mem[..]), base, old(Index()), data), mem[..], base + INDEX_AT, Index())
              && Index() == IndexAfter(old(mem[..]), base, old(Index()), data)
      ensures Valid() && Queue() == old(Queue()) + Slice(old(mem[..]), buf, buf + n) <==> |old(Queue())| + n <= 255
      ensures Valid() && Queue() == After(old(Queue()), Write(Slice(old(mem[..]), buf, buf + n)))
              <==> |old(Queue())| + n <= 255
    {
      hide Put, Slice, After, Word;
      ghost var m, data := mem[..], Slice(mem[..], buf, buf + n);
      var size := ReadWord(mem, base + INDEX_AT);
      Copy(mem, base + size, buf, n);
      ghost var written := mem[..];
      var found := ReadWord(mem, base + INDEX_AT);
      WriteWord(mem, base + INDEX_AT, U32(found + n));
      WriteQueue(m, mem[..], base, size, data);
      AfterMeans(old(Queue()), data);
      r := n;
    }
  }

  /** The queue after a write: exactly the bytes that fit join it. */
  lemma WriteQueue(m: seq<Byte>, m': seq<Byte>, base: nat, size: nat, data: seq<Byte>)
    requires base + 2 * CAPACITY <= |m| && base + size + |data| <= |m| && size <= CAPACITY
    requires Word(m, base + INDEX_AT) == size
    requires Stored(AfterCopy(m, base, size, data), m', base + INDEX_AT, IndexAfter(m, base, size, data))
    ensures size + |data| <= CAPACITY ==>
              && Word(m', base + INDEX_AT) == size + |data|
              && Slice(m', base, base + size + |data|) == After(Slice(m, base, base + size), Write(data))
    ensures |After(Slice(m, base, base + size), Write(data))| == size + |data|
  {
    hide Put, Word;
    if size + |data| <= CAPACITY {
      hide Slice, After;
      IndexIsSum(m, base, size, data);
      WriteEffect(m, base, size, data);
      StoredBeside(AfterCopy(m, base, size, data), m', base + INDEX_AT, IndexAfter(m, base, size, data),
                   base, base + size + |data|);
    }
  }

  // ---------- Runs on the device ----------

  /** The caller's buffer has room for every call. */
  predicate HasRoom(run: seq<Call>, room: nat) {
    forall i :: 0 <= i < |run| ==> (if run[i].Read? then run[i].nbyte else |run[i].data|) <= room
  }

  /** A run of reads and writes through one caller's buffer, which stays within the capacity:
      the device delivers and keeps what the queue does. */
  method Perform(f: Fifo, run: seq<Call>, buf: nat, room: nat) returns (delivered: seq<Byte>)
    requires f.Valid() && WithinCapacity(f.Queue(), run) && HasRoom(run, room) && f.Outside(buf, room)
    modifies f.mem
    ensures f.Valid() && delivered == Delivered(old(f.Queue()), run) && f.Queue() == Left(old(f.Queue()), run)
  {
    hide *;
    delivered := [];
    ghost var queue := f.Queue();
    ProgressStart(queue, run);
    for i := 0 to |run|
      invariant f.Valid() && Progress(queue, run, i, f.Queue(), delivered)
    {
      ProgressStep(queue, run, i, f.Queue(), delivered);
      RoomFor(run, room, i);
      var bytes := PerformOne(f, run[i], buf, room);
      delivered := delivered + bytes;
    }
    ProgressEnd(queue, run, f.Queue(), delivered);
  }

  /** After i calls of the run. */
  ghost predicate Progress(queue: seq<Byte>, run: seq<Call>, i: nat, current: seq<Byte>, delivered: seq<Byte>) {
    && i <= |run| && WithinCapacity(current, run[i..])
    && delivered + Delivered(current, run[i..]) == Delivered(queue, run)
    && Left(current, run[i..]) == Left(queue, run)
  }

  lemma ProgressStart(queue: seq<Byte>, run: seq<Call>)
    requires WithinCapacity(queue, run)
    ensures Progress(queue, run, 0, queue, [])
  {
    assert run[0..] == run;
  }

  lemma ProgressStep(queue: seq<Byte>, run: seq<Call>, i: nat, current: seq<Byte>, delivered: seq<Byte>)
    requires i < |run| && Progress(queue, run, i, current, delivered)
    ensures run[i].Write? ==> |current| + |run[i].data| <= CAPACITY
    ensures Served(current, run[i]) <= |current|
    ensures Progress(queue, run, i + 1, After(current, run[i]), delivered + current[..Served(current, run[i])])
  {
    hide After, Served;
    assert run[i..][1..] == run[i + 1..];
    var first, rest := current[..Served(current, run[i])], Delivered(After(current, run[i]), run[i + 1..]);
    assert delivered + (first + rest) == delivered + first + rest;
  }

  lemma ProgressEnd(queue: seq<Byte>, run: seq<Call>, current: seq<Byte>, delivered: seq<Byte>)
    requires Progress(queue, run, |run|, current, delivered)
    ensures delivered == Delivered(queue, run) && current == Left(queue, run)
  {
    assert run[|run|..] == [] && delivered + [] == delivered;
  }

  lemma RoomFor(run: seq<Call>, room: nat, i: nat)
    requires HasRoom(run, room) && i < |run|
    ensures (if run[i].Read? then run[i].nbyte else |run[i].data|) <= room
  {
  }

  method PerformOne(f: Fifo, call: Call, buf: nat, room: nat) returns (bytes: seq<Byte>)
    requires f.Valid() && f.Outside(buf, room)
    requires (if call.Read? then call.nbyte else |call.data|) <= room
    requires call.Write? ==> |f.Queue()| + |call.data| <= CAPACITY
    modifies f.mem
    ensures f.Valid() && f.Queue() == After(old(f.Queue()), call)
    ensures bytes == old(f.Queue())[..Served(old(f.Queue()), call)]
  {
    hide Slice, Put, Word, After;
    match call {
      case Read(nbyte) =>
        var n := f.ReadBytes(buf, nbyte);
        bytes := Bytes(f.mem, buf, n);
      case Write(data) =>
        ghost var m := f.mem[..];
        StoreBytes(f.mem, buf, data);
        SameQueue(f, m, buf, data);
        var n := f.WriteBytes(buf, |data|);
        bytes := [];
    }
  }

  method Bytes(mem: array<Byte>, a: nat, n: nat) returns (bytes: seq<Byte>)
    requires a + n <= mem.Length
    ensures bytes == Slice(mem[..], a, a + n)
  {
    bytes := mem[a..a + n];
  }

  /** A caller fills its buffer. */
  method StoreBytes(mem: array<Byte>, a: nat, data: seq<Byte>)
    requires a + |data| <= mem.Length
    modifies mem
    ensures mem[..] == Put(old(mem[..]), a, data)
  {
    for i := 0 to |data|
      invariant forall j :: 0 <= j < mem.Length ==> mem[j] == if a <= j < a + i then data[j - a] else old(mem[j])
    {
      mem[a + i] := data[i];
    }
  }

  lemma SameQueue(f: Fifo, m: seq<Byte>, buf: nat, data: seq<Byte>)
    requires f.base + 2 * CAPACITY <= |m| && Word(m, f.base + INDEX_AT) <= CAPACITY && buf + |data| <= |m|
    requires buf + |data| <= f.base || f.base + RECORD <= buf
    requires f.mem[..] == Put(m, buf, data)
    ensures f.Valid() && f.Queue() == Slice(m, f.base, f.base + Word(m, f.base + INDEX_AT))
    ensures f.Index() == Word(m, f.base + INDEX_AT) && Slice(f.mem[..], buf, buf + |data|) == data
  {
    hide Put, Slice, Word;
    WordBeside(m, buf, data, f.base + INDEX_AT);
    PutBeside(m, buf, data, f.base, f.base + f.Index());
    PutAt(m, buf, data);
  }
}
