/** The kernel's byte-addressed memory: little-endian 32-bit words in a byte
    sequence, and the C library's `memcpy`. */
module Memory {

  type Byte = x: int | 0 <= x < 0x100

  const WORD: nat := 0x1_0000_0000

  /** Unsigned 32-bit arithmetic. */
  function U32(x: int): nat { x % WORD }

  /** The word stored at address a. */
  function Word(m: seq<Byte>, a: nat): (w: nat)
    requires a + 4 <= |m|
    ensures w < WORD
  {
    var b0: int, b1: int, b2: int, b3: int := m[a], m[a + 1], m[a + 2], m[a + 3];
    b0 + 0x100 * b1 + 0x1_0000 * b2 + 0x100_0000 * b3
  }

  /** m' is m after word w was stored at address a. */
  ghost predicate Stored(m: seq<Byte>, m': seq<Byte>, a: nat, w: nat) {
    && |m'| == |m| && a + 4 <= |m|
    && Word(m', a) == w
    && forall i :: 0 <= i < |m| && (i < a || a + 4 <= i) ==> m'[i] == m[i]
  }

  lemma LowByte(w: nat)
    ensures w == w % 0x100 + 0x100 * (w / 0x100)
  {
  }

  lemma HigherBytes(w: nat)
    ensures w / 0x1_0000 == w / 0x100 / 0x100 && w / 0x100_0000 == w / 0x1_0000 / 0x100
  {
  }

  lemma WordBytes(w: nat)
    requires w < WORD
    ensures w / 0x100_0000 < 0x100
    ensures w == w % 0x100 + 0x100 * (w / 0x100 % 0x100)
                 + 0x1_0000 * (w / 0x1_0000 % 0x100) + 0x100_0000 * (w / 0x100_0000)
  {
    HigherBytes(w);
    LowByte(w);
    LowByte(w / 0x100);
    LowByte(w / 0x1_0000);
  }

  method WriteWord(mem: array<Byte>, a: nat, w: nat)
    requires a + 4 <= mem.Length && w < WORD
    modifies mem
    ensures Stored(old(mem[..]), mem[..], a, w)
  {
    WordBytes(w);
    var b0: Byte, b1: Byte, b2: Byte, b3: Byte :=
      w % 0x100, w / 0x100 % 0x100, w / 0x1_0000 % 0x100, w / 0x100_0000;
    mem[a], mem[a + 1], mem[a + 2], mem[a + 3] := b0, b1, b2, b3;
  }

  method ReadWord(mem: array<Byte>, a: nat) returns (w: nat)
    requires a + 4 <= mem.Length
    ensures w == Word(mem[..], a) && w < WORD
  {
    var b0: int, b1: int, b2: int, b3: int := mem[a], mem[a + 1], mem[a + 2], mem[a + 3];
    w := b0 + 0x100 * b1 + 0x1_0000 * b2 + 0x100_0000 * b3;
  }

  /** i modulo d, by repeated subtraction. */
  function Wrap(i: nat, d: nat): (r: nat)
    requires 0 < d
    ensures r < d && r <= i
  {
    if i < d then i else Wrap(i - d, d)
  }

  /** What byte dst + i holds after the forward copy: the source byte, except when the
      destination starts inside the source; then the first dst - src bytes repeat. */
  function Copied(m: seq<Byte>, dst: nat, src: nat, i: nat): Byte
    requires src + i < |m|
  {
    if src < dst then m[src + Wrap(i, dst - src)] else m[src + i]
  }

  /** `memcpy` (kernel/clib/string.cpp:48-52), a forward byte copy that is also
      defined when the two ranges overlap. */
  method MemCopy(mem: array<Byte>, dst: nat, src: nat, n: nat)
    requires dst + n <= mem.Length && src + n <= mem.Length
    modifies mem
    ensures forall i :: 0 <= i < n ==> mem[dst + i] == Copied(old(mem[..]), dst, src, i)
    ensures forall j :: 0 <= j < mem.Length && (j < dst || dst + n <= j) ==> mem[j] == old(mem[j])
    ensures dst <= src || src + n <= dst ==> mem[dst..dst + n] == old(mem[src..src + n])
  {
    for i := 0 to n
      invariant forall k :: 0 <= k < i ==> mem[dst + k] == Copied(old(mem[..]), dst, src, k)
      invariant forall j :: 0 <= j < mem.Length && (j < dst || dst + i <= j) ==> mem[j] == old(mem[j])
    {
      if src < dst && dst - src <= i {
        assert mem[dst + (i - (dst - src))] == Copied(old(mem[..]), dst, src, i - (dst - src));
      }
      mem[dst + i] := mem[src + i];
    }
    if dst <= src || src + n <= dst {
      forall j | dst <= j < dst + n ensures mem[j] == old(mem[src + (j - dst)]) {
        assert mem[dst + (j - dst)] == Copied(old(mem[..]), dst, src, j - dst);
      }
    }
  }
}
