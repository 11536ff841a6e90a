/** Integers as text (kernel/clib/string.cpp:7-46). */
module IntegerText {
  import opened Memory

  /** `int` */
  type Int32 = x: int | -0x8000_0000 <= x < 0x8000_0000

  /** The digit loop ends only for bases from 2 on. */
  type Base = b: int | 2 <= b < 0x8000_0000 witness 10

  const SCRATCH: nat := 16
  const MINUS: Byte := 45

  /** The character of a digit: from 10 on it is counted from 'a', so that ten is a 'k'. */
  function DigitChar(i: nat): Byte {
    (i + (if i < 10 then 48 else 97)) % 0x100
  }

  function Signed(value: Int32, base: Base): bool { base == 10 && value < 0 }

  /** The unsigned number whose digits are written: the two's complement, except that a
      negative number in base 10 is negated first, modulo 2^32. */
  function Magnitude(value: Int32, base: Base): (v: nat)
    ensures v < WORD
  {
    if Signed(value, base) then (0 - value) % WORD else value % WORD
  }

  function Numeral(v: nat, base: Base): (r: seq<Byte>)
    ensures v > 0 ==> r != []
  {
    if v == 0 then [] else Numeral(v / base, base) + [DigitChar(v % base)]
  }

  function Text(value: Int32, base: Base): (r: seq<Byte>)
    ensures r != []
  {
    if value == 0 then [48]
    else (if Signed(value, base) then [MINUS] else []) + Numeral(Magnitude(value, base), base)
  }

  function Power(b: nat, k: nat): (p: nat)
    ensures b > 0 ==> p > 0
  {
    if k == 0 then 1 else b * Power(b, k - 1)
  }

  // ---------- What the text means ----------

  function DigitOf(c: Byte): nat { if 48 <= c < 58 then c - 48 else if c >= 97 then c - 97 else 0 }

  function ValueOf(digits: seq<Byte>, base: nat): nat {
    if digits == [] then 0 else ValueOf(digits[..|digits| - 1], base) * base + DigitOf(digits[|digits| - 1])
  }

  function Parse(text: seq<Byte>, base: nat): int {
    if text != [] && text[0] == 45 then 0 - ValueOf(text[1..], base) else ValueOf(text, base)
  }

  lemma Quotient(v: nat, b: nat)
    requires v > 0 && b >= 2
    ensures 0 <= v / b < v && 0 <= v % b < b && v / b * b + v % b == v
  {
  }

  lemma NumeralStep(v: nat, base: Base)
    requires v > 0
    ensures 0 <= v / base < v && 0 <= v % base < base
    ensures Numeral(v, base) == Numeral(v / base, base) + [DigitChar(v % base)]
  {
    hide DigitChar;
    Quotient(v, base);
  }

  lemma NoDigits(base: Base)
    ensures Numeral(0, base) == []
  {
  }

  lemma DigitRead(i: nat)
    requires i < 159
    ensures DigitOf(DigitChar(i)) == i
  {
  }

  lemma ValueSnoc(digits: seq<Byte>, c: Byte, base: nat)
    ensures ValueOf(digits + [c], base) == ValueOf(digits, base) * base + DigitOf(c)
  {
    hide DigitOf;
    assert (digits + [c])[..|digits|] == digits;
  }

  lemma NoValue(base: nat)
    ensures ValueOf([], base) == 0
  {
  }

  /** The digits are those of v, for every base whose digits are distinct characters. */
  lemma {:induction false} NumeralValue(v: nat, base: Base)
    requires base <= 159
    ensures ValueOf(Numeral(v, base), base) == v
  {
    hide Numeral, DigitChar, DigitOf, ValueOf;
    if v == 0 {
      NoDigits(base);
      NoValue(base);
    } else {
      NumeralStep(v, base);
      Quotient(v, base);
      NumeralValue(v / base, base);
      DigitRead(v % base);
      ValueSnoc(Numeral(v / base, base), DigitChar(v % base), base);
    }
  }

  lemma {:induction false} FirstDigit(v: nat, base: Base)
    requires v > 0
    ensures Numeral(v, base) != [] && exists i: nat :: 0 < i < base && Numeral(v, base)[0] == DigitChar(i)
  {
    hide Numeral, DigitChar;
    NumeralStep(v, base);
    if v / base == 0 {
      Quotient(v, base);
      NoDigits(base);
    } else {
      FirstDigit(v / base, base);
    }
  }

  /** A text starts with a zero only if it is the one of zero. */
  lemma NoLeadingZero(value: Int32, base: Base)
    requires base <= 159
    ensures Text(value, base)[0] == 48 <==> value == 0
  {
    if value != 0 && !Signed(value, base) {
      FirstDigit(Magnitude(value, base), base);
    }
  }

  lemma SignedText(value: Int32, base: Base)
    requires Signed(value, base)
    ensures Text(value, base) == [45] + Numeral(Magnitude(value, base), base)
    ensures Magnitude(value, base) == 0 - value
  {
    hide Numeral;
  }

  lemma UnsignedText(value: Int32, base: Base)
    requires !Signed(value, base) && value != 0 && base <= 159
    ensures Text(value, base) == Numeral(Magnitude(value, base), base)
    ensures Text(value, base)[0] != 45
    ensures Magnitude(value, base) == value % WORD
  {
    hide Numeral;
    FirstDigit(Magnitude(value, base), base);
  }

  /** A text starts with a minus sign exactly for a negative number in base 10. */
  lemma SignMeans(value: Int32, base: Base)
    requires base <= 159
    ensures Text(value, base)[0] == 45 <==> base == 10 && value < 0
  {
    hide Numeral, Magnitude;
    if Signed(value, base) {
      SignedText(value, base);
    } else if value != 0 {
      UnsignedText(value, base);
    } else {
      ZeroText(base);
    }
  }

  lemma ZeroText(base: Base)
    ensures Text(0, base) == [48] && Parse([48], base) == 0
  {
    hide Numeral;
    assert [48][..0] == [] && ValueOf([], base) == 0;
    assert ValueOf([48], base) == 0 * base + DigitOf(48);
  }

  /** Reading back a decimal text gives the number, also for the least one, whose negation
      does not fit; in any other base it gives the unsigned reading of the number. */
  lemma ParseUndoes(value: Int32, base: Base)
    requires base <= 159
    ensures Parse(Text(value, base), base) == if base == 10 then value else value % 0x1_0000_0000
  {
    hide Numeral, Text, Magnitude, ValueOf;
    if value == 0 {
      ZeroText(base);
    } else if Signed(value, base) {
      SignedText(value, base);
      assert Text(value, base)[1..] == Numeral(Magnitude(value, base), base);
      NumeralValue(Magnitude(value, base), base);
    } else {
      UnsignedText(value, base);
      NumeralValue(Magnitude(value, base), base);
    }
  }

  lemma PowerStep(b: nat, k: nat)
    ensures Power(b, 0) == 1 && Power(b, k + 1) == b * Power(b, k)
  {
  }

  /** v has at most k digits exactly when it is below base^k. */
  lemma {:induction false} DigitCount(v: nat, base: Base, k: nat)
    ensures |Numeral(v, base)| <= k <==> v < Power(base, k)
    decreases k
  {
    hide Numeral, Power, DigitChar;
    PowerStep(base, k);
    if v == 0 {
      NoDigits(base);
    } else {
      NumeralStep(v, base);
      if k > 0 {
        var q := v / base;
        DigitCount(q, base, k - 1);
        PowerStep(base, k - 1);
        DivideBound(v, base, Power(base, k - 1));
      }
    }
  }

  lemma DivideBound(v: nat, b: nat, p: nat)
    requires b > 0
    ensures v / b < p <==> v < b * p
  {
    if v / b < p {
      assert b * (v / b + 1) <= b * p by { Increasing(b, v / b + 1, p); }
    } else {
      assert b * p <= b * (v / b) by { Increasing(b, p, v / b); }
    }
  }

  lemma Increasing(b: nat, x: nat, y: nat)
    requires x <= y
    ensures b * x <= b * y
  {
  }

  lemma ProductsGrow(a: nat, b: nat, p: nat, q: nat)
    requires a <= b && p <= q
    ensures a * p <= b * q
  {
    Increasing(a, p, q);
    Increasing(q, a, b);
  }

  /** Character i from the right is the digit of base^i: from ten on counted from 'a'. */
  lemma {:induction false} DigitAt(v: nat, base: Base, i: nat)
    requires i < |Numeral(v, base)|
    ensures Power(base, i) > 0
    ensures var d := v / Power(base, i) % base;
            Numeral(v, base)[|Numeral(v, base)| - 1 - i] == (if d < 10 then 48 + d else 97 + d) % 0x100
  {
    hide Numeral, Power;
    if v == 0 { NoDigits(base); }
    PowerStep(base, i);
    NumeralStep(v, base);
    if i > 0 {
      DigitAt(v / base, base, i - 1);
      PowerStep(base, i - 1);
      DivideTwice(v, base, Power(base, i - 1));
    }
  }

  lemma DivideTwice(v: nat, b: nat, p: nat)
    requires b > 0 && p > 0
    ensures b * p > 0 && v / b / p == v / (b * p)
  {
    var x, low := Divide(v, b);
    var q, r := Divide(x, p);
    Regroup(b, p, q, r, low);
    QuotientIs(v, b * p, q, b * r + low);
  }

  lemma Divide(v: nat, b: nat) returns (q: nat, r: nat)
    requires b > 0
    ensures v == b * q + r && r < b && q == v / b
  {
    q, r := v / b, v % b;
  }

  lemma Regroup(b: nat, p: nat, q: nat, r: nat, low: nat)
    requires r < p && low < b
    ensures b * (p * q + r) + low == b * p * q + (b * r + low) && b * r + low < b * p
  {
    Increasing(b, r + 1, p);
  }

  lemma QuotientIs(v: nat, m: nat, q: nat, rest: nat)
    requires v == m * q + rest && rest < m
    ensures v / m == q
  {
    if q < v / m { Increasing(m, q + 1, v / m); }
    if v / m < q { Increasing(m, v / m + 1, q); }
  }

  lemma {:induction false} PowerGrows(a: nat, b: nat, k: nat)
    requires a <= b
    ensures Power(a, k) <= Power(b, k)
  {
    hide Power;
    if k == 0 {
      PowerStep(a, 0);
      PowerStep(b, 0);
    } else {
      PowerGrows(a, b, k - 1);
      PowerStep(a, k - 1);
      PowerStep(b, k - 1);
      ProductsGrow(a, b, Power(a, k - 1), Power(b, k - 1));
    }
  }

  /** Sixteen bytes hold all digits exactly when the number is below base^16; from base 4 on
      that is every number, and the sign of a decimal number fits as well. */
  lemma ScratchSuffices(value: Int32, base: Base)
    ensures |Text(value, base)| <= 16 <==> Magnitude(value, base) < Power(base, 16)
    ensures base >= 4 ==> Magnitude(value, base) < Power(base, 16)
  {
    hide Power, Magnitude, Numeral;
    var v := Magnitude(value, base);
    DigitCount(v, base, SCRATCH);
    if base >= 4 {
      FourTo16();
      PowerGrows(4, base, SCRATCH);
    }
    if value == 0 {
      ZeroMagnitude(base);
    } else if Signed(value, base) {
      DigitCount(v, base, 10);
      TenTo10();
    }
  }

  /** In base 2 the number 2^16 needs seventeen bytes. */
  lemma BinaryOverruns()
    ensures |Text(0x1_0000, 2)| > 16
  {
    ScratchSuffices(0x1_0000, 2);
    assert Power(2, 8) == 0x100;
    assert Power(2, SCRATCH) == 0x1_0000;
  }

  lemma ZeroMagnitude(base: Base)
    ensures Magnitude(0, base) == 0 < Power(base, SCRATCH)
  {
  }

  lemma FourTo16()
    ensures Power(4, SCRATCH) == WORD
  {
    assert Power(4, 8) == 65536;
    assert Power(4, 12) == 16777216;
  }

  lemma TenTo10()
    ensures Power(10, 10) > WORD
  {
  }

  // ---------- The usual notation ----------

  /** The usual character of a digit: from ten on 'a', 'b' and so on up to 'z'. */
  function UsualChar(i: nat): Byte {
    (i + (if i < 10 then 48 else 97 - 10)) % 0x100
  }

  function UsualNumeral(v: nat, base: Base): seq<Byte> {
    if v == 0 then [] else UsualNumeral(v / base, base) + [UsualChar(v % base)]
  }

  /** The text that a reader of numbers in that base expects. */
  function UsualText(value: Int32, base: Base): seq<Byte> {
    if value == 0 then [48]
    else (if base == 10 && value < 0 then [45] else []) + UsualNumeral(Magnitude(value, base), base)
  }

  /** No digit of v is ten or more. */
  predicate DecimalDigits(v: nat, base: Base) {
    v == 0 || (v % base < 10 && DecimalDigits(v / base, base))
  }

  lemma UsualChars(i: nat)
    requires i < 36
    ensures DigitChar(i) == UsualChar(i) <==> i < 10
  {
  }

  lemma SameSnoc(a: seq<Byte>, x: Byte, b: seq<Byte>, y: Byte)
    ensures a + [x] == b + [y] <==> a == b && x == y
  {
    if a + [x] == b + [y] {
      assert (a + [x])[..|a|] == a && (b + [y])[..|b|] == b;
      assert (a + [x])[|a|] == x && (b + [y])[|b|] == y;
    }
  }

  /** The numeral is the usual one exactly when no digit is ten or more. */
  lemma {:induction false} UsualExactly(v: nat, base: Base)
    requires base <= 36
    ensures Numeral(v, base) == UsualNumeral(v, base) <==> DecimalDigits(v, base)
  {
    hide DigitChar, UsualChar;
    if v > 0 {
      Quotient(v, base);
      UsualExactly(v / base, base);
      UsualChars(v % base);
      SameSnoc(Numeral(v / base, base), DigitChar(v % base), UsualNumeral(v / base, base), UsualChar(v % base));
    }
  }

  lemma {:induction false} SmallBase(v: nat, base: Base)
    requires base <= 10
    ensures DecimalDigits(v, base)
  {
    if v > 0 {
      Quotient(v, base);
      SmallBase(v / base, base);
    }
  }

  /** `itoa` writes the usual text exactly when no digit is ten or more: always up to base
      ten, and beyond it never when a digit would be a letter. */
  lemma TextUsual(value: Int32, base: Base)
    requires base <= 36
    ensures Text(value, base) == UsualText(value, base) <==> DecimalDigits(Magnitude(value, base), base)
    ensures base <= 10 ==> Text(value, base) == UsualText(value, base)
  {
    hide Numeral, UsualNumeral, DecimalDigits, Magnitude;
    var v := Magnitude(value, base);
    UsualExactly(v, base);
    if base <= 10 { SmallBase(v, base); }
    if value == 0 {
      ZeroDecimal(base);
    } else if Signed(value, base) {
      assert Text(value, base)[1..] == Numeral(v, base);
      assert UsualText(value, base)[1..] == UsualNumeral(v, base);
    } else {
      assert Text(value, base) == Numeral(v, base);
      assert UsualText(value, base) == UsualNumeral(v, base);
    }
  }

  lemma ZeroDecimal(base: Base)
    ensures DecimalDigits(Magnitude(0, base), base)
  {
  }

  /** In base 16, ten is written as a "k" and minus one as eight times "p". */
  lemma TenIsK()
    ensures Text(10, 16) == [107] && Text(-1, 16) == seq(8, _ => 112)
  {
    NumeralStep(10, 16);
    NoDigits(16);
    assert WORD - 1 == 0xffff_ffff;
    NumeralOfAllOnes(8);
    assert Power(16, 4) == 0x1_0000;
    assert Power(16, 8) == WORD;
  }

  lemma {:induction false} NumeralOfAllOnes(k: nat)
    ensures Numeral(Power(16, k) - 1, 16) == seq(k, _ => 112)
  {
    if k > 0 {
      var p := Power(16, k - 1);
      PowerStep(16, k - 1);
      assert (16 * p - 1) / 16 == p - 1 && (16 * p - 1) % 16 == 15;
      NumeralStep(16 * p - 1, 16);
      NumeralOfAllOnes(k - 1);
    }
  }

  // ---------- The conversion ----------

  /** What the scratch buffer holds: a text, last character first. */
  ghost predicate Backwards(buffer: seq<Byte>, text: seq<Byte>) {
    |text| <= |buffer| && forall k :: 0 <= k < |text| ==> buffer[k] == text[|text| - 1 - k]
  }

  /** The digit loop. */
  method WriteDigits(v0: nat, buffer: array<Byte>, base: Base) returns (len: nat)
    requires |Numeral(v0, base)| <= buffer.Length
    modifies buffer
    ensures len == |Numeral(v0, base)| && Backwards(buffer[..], Numeral(v0, base))
  {
    hide Numeral, DigitChar;
    NoDigits(base);
    var v: nat := v0;
    ghost var all := Numeral(v, base);
    len := 0;
    while v != 0
      invariant len + |Numeral(v, base)| == |all|
      invariant all[..|all| - len] == Numeral(v, base)
      invariant forall k :: 0 <= k < len ==> buffer[k] == all[|all| - 1 - k]
      decreases v
    {
      DigitsSplit(all, v, base, |all| - len);
      buffer[len] := DigitChar(v % base);
      v := v / base;
      len := len + 1;
    }
  }

  lemma DigitsSplit(all: seq<Byte>, v: nat, base: Base, n: nat)
    requires v > 0 && n <= |all| && all[..n] == Numeral(v, base)
    ensures 0 <= v / base < v && n == |Numeral(v / base, base)| + 1 && all[n - 1] == DigitChar(v % base)
    ensures all[..n - 1] == Numeral(v / base, base)
  {
    hide DigitChar, Numeral;
    NumeralStep(v, base);
    assert all[n - 1] == all[..n][n - 1];
    assert all[..n - 1] == all[..n][..n - 1];
  }

  /** The copying loop turns the scratch buffer round. */
  method CopyBack(buffer: array<Byte>, len: nat, out: array<Byte>, ghost text: seq<Byte>)
    requires out != buffer && len == |text| < out.Length && Backwards(buffer[..], text)
    modifies out
    ensures out[..len] == text && forall j :: len <= j < out.Length ==> out[j] == old(out[j])
  {
    var tmp: nat := len;
    while tmp > 0
      invariant tmp <= len == |text| < out.Length
      invariant forall k :: 0 <= k < len - tmp ==> out[k] == text[k]
      invariant forall j :: len <= j < out.Length ==> out[j] == old(out[j])
    {
      tmp := tmp - 1;
      out[len - 1 - tmp] := buffer[tmp];
    }
  }

  /** `itoa`. The caller's buffer must hold the text and a NUL, and the 16 bytes of scratch
      must suffice. */
  method Itoa(value: Int32, out: array<Byte>, base: Base) returns (len: nat)
    requires |Text(value, base)| < out.Length
    requires Magnitude(value, base) < Power(base, SCRATCH)
    modifies out
    ensures len == |Text(value, base)|
    ensures out[..len] == Text(value, base) && out[len] == 0
    ensures forall j :: len < j < out.Length ==> out[j] == old(out[j])
  {
    hide Power, Magnitude, Numeral;
    if value == 0 {
      out[0], out[1] := 48, 0;
      return 1;
    }
    ScratchSuffices(value, base);
    var buffer := new Byte[SCRATCH];
    len := WriteDigits(Magnitude(value, base), buffer, base);
    if Signed(value, base) {
      buffer[len] := MINUS;
      len := len + 1;
    }
    CopyBack(buffer, len, out, Text(value, base));
    out[len] := 0;
  }
}
