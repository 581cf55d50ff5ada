/**
  The IEEE 754 binary64 layout (IEEE 754-2008 section 3.4) as the data generator uses it
  through the `str_double` bit-field view: sign at bit 63, biased exponent at bits 52-62,
  trailing significand (mantissa) at bits 0-51. Unsigned 32-bit words are naturals below
  2^32; on them `w >> 1` is `w / 2`, and `(w >> 1) | 0x80000000` is `w / 2 + 0x80000000`.
 */
module Binary64 {
  import opened Arithmetic

  type Bit = b: nat | b < 2
  type Word = w: nat | w < 0x1_0000_0000
  type ExponentField = e: nat | e < 0x800
  type MantissaField = m: nat | m < 0x10_0000_0000_0000

  /** The exponent bias of binary64. */
  const Bias: nat := 0x3ff

  /** The three bit fields of a binary64 value. */
  datatype Double = Double(sign: Bit, exponent: ExponentField, mantissa: MantissaField)

  const Zero: Double := Double(0, 0, 0)

  /**
    The value assembled by `*(int*)&ret = low; *((int*)&ret + 1) = high;` on a
    little-endian machine: `low` fills bits 0-31, `high` bits 32-63.
   */
  function FromWords(low: Word, high: Word): (d: Double)
    ensures LowWord(d) == low && HighWord(d) == high
  {
    var h1, h2 := high / 0x10_0000, high % 0x10_0000;
    assert high == h1 * 0x10_0000 + h2;
    assert h1 == (h1 / 0x800) * 0x800 + h1 % 0x800;
    Double(high / 0x8000_0000, (high / 0x10_0000) % 0x800, (high % 0x10_0000) * 0x1_0000_0000 + low)
  }

  /** Bits 0-31 of the value. */
  function LowWord(d: Double): Word
  {
    d.mantissa % 0x1_0000_0000
  }

  /** Bits 32-63 of the value. */
  function HighWord(d: Double): Word
  {
    d.sign * 0x8000_0000 + d.exponent * 0x10_0000 + d.mantissa / 0x1_0000_0000
  }

  /** The 64-bit pattern of the value. */
  function Pattern(d: Double): nat
  {
    d.sign * 0x8000_0000_0000_0000 + d.exponent * 0x10_0000_0000_0000 + d.mantissa
  }

  /** Splitting a value into its two words and writing them back gives the same value. */
  lemma FieldsRoundTrip(d: Double)
    ensures FromWords(LowWord(d), HighWord(d)) == d
  {
    var high := HighWord(d);
    assert high / 0x10_0000 == d.sign * 0x800 + d.exponent;
    assert high % 0x10_0000 == d.mantissa / 0x1_0000_0000;
  }

  /** The fields sit where binary64 puts them: the pattern is high * 2^32 + low. */
  lemma PatternOfWords(low: Word, high: Word)
    ensures Pattern(FromWords(low, high)) == high * 0x1_0000_0000 + low
  {
    var d := FromWords(low, high);
    assert d.mantissa / 0x1_0000_0000 == high % 0x10_0000;
  }

  /** A finite value: the exponent field is not all ones. */
  predicate IsFinite(d: Double)
  {
    d.exponent < 0x7ff
  }

  function Pow2(k: nat): (r: nat)
    ensures r > 0
  {
    if k == 0 then 1 else 2 * Pow2(k - 1)
  }

  function Pow2Real(k: int): (r: real)
    ensures r > 0.0
    decreases if k < 0 then -k else k
  {
    if k == 0 then 1.0 else if k > 0 then 2.0 * Pow2Real(k - 1) else Pow2Real(k + 1) / 2.0
  }

  /** The magnitude a finite value encodes (subnormal when the exponent field is 0). */
  function Magnitude(d: Double): real
  {
    if d.exponent == 0 then d.mantissa as real * Pow2Real(-1074)
    else (d.mantissa + 0x10_0000_0000_0000) as real * Pow2Real(d.exponent - 1075)
  }

  /** The real number a finite value encodes; meaningful when `IsFinite(d)`. */
  function Value(d: Double): real
  {
    if d.sign == 1 then -Magnitude(d) else Magnitude(d)
  }

  /** Setting the sign bit negates a value; clearing it gives its absolute value. */
  lemma SignFlipNegates(d: Double)
    ensures Value(d.(sign := 1)) == -Value(d.(sign := 0))
    ensures Value(d.(sign := 0)) >= 0.0
  {
  }

  /** A non-zero value with the sign bit set is negative. */
  lemma SignSetMeansNegative(d: Double)
    requires d.sign == 1 && (d.exponent > 0 || d.mantissa > 0)
    ensures Value(d) < 0.0
  {
  }

  // ---- bits drawn one at a time ----

  /** The number whose bit `j` is the low bit of `bits[j]`: the first element is bit 0. */
  function PackBits(bits: seq<nat>): nat
  {
    if bits == [] then 0 else bits[0] % 2 + 2 * PackBits(bits[1..])
  }

  /** Bit `j` of `x`. */
  function BitOf(x: nat, j: nat): Bit
  {
    if j == 0 then x % 2 else BitOf(x / 2, j - 1)
  }

  lemma {:induction false} PackBitsBound(bits: seq<nat>)
    ensures PackBits(bits) < Pow2(|bits|)
  {
    if bits != [] {
      PackBitsBound(bits[1..]);
    }
  }

  lemma {:induction false} PackBitsSnoc(bits: seq<nat>, b: nat)
    ensures PackBits(bits + [b]) == PackBits(bits) + (b % 2) * Pow2(|bits|)
  {
    if bits == [] {
      assert [b][1..] == [];
    } else {
      assert (bits + [b])[1..] == bits[1..] + [b];
      PackBitsSnoc(bits[1..], b);
    }
  }

  /** Bit `j` of the packed number is the low bit of draw `j`. */
  lemma {:induction false} PackBitsBit(bits: seq<nat>, j: nat)
    requires j < |bits|
    ensures BitOf(PackBits(bits), j) == bits[j] % 2
  {
    if j > 0 {
      PackBitsBit(bits[1..], j - 1);
      assert PackBits(bits) / 2 == PackBits(bits[1..]);
    }
  }

  lemma PackBitsBits(bits: seq<nat>)
    ensures forall j :: 0 <= j < |bits| ==> BitOf(PackBits(bits), j) == bits[j] % 2
  {
    forall j | 0 <= j < |bits| ensures BitOf(PackBits(bits), j) == bits[j] % 2 {
      PackBitsBit(bits, j);
    }
  }

  lemma {:induction false} Pow2Add(a: nat, b: nat)
    ensures Pow2(a) * Pow2(b) == Pow2(a + b)
  {
    if a > 0 {
      Pow2Add(a - 1, b);
    }
  }

  lemma Halve(p: nat, s: nat, word: nat)
    requires word == p * (2 * s)
    ensures word / 2 == p * s
  {
    assert word == 2 * (p * s);
  }

  lemma Distribute(x: nat, y: nat, z: nat, w: nat)
    ensures (x + y * z) * w == x * w + y * (z * w)
  {
  }

  lemma Pow2Values()
    ensures Pow2(11) == 0x800 && Pow2(20) == 0x10_0000
    ensures Pow2(31) == 0x8000_0000 && Pow2(32) == 0x1_0000_0000
  {
    assert Pow2(2) == 4;
    Pow2Add(2, 2);
    Pow2Add(4, 4);
    Pow2Add(8, 2);
    Pow2Add(10, 1);
    Pow2Add(8, 8);
    Pow2Add(16, 4);
    Pow2Add(16, 8);
    Pow2Add(24, 4);
    Pow2Add(28, 2);
    Pow2Add(30, 1);
    Pow2Add(31, 1);
  }

  /** The word after shifting each of `bits` in at bit 31, one after the other. */
  function ShiftedIn(bits: seq<nat>): Word
    decreases |bits|
  {
    if bits == [] then 0
    else
      var w := ShiftedIn(bits[..|bits| - 1]);
      if bits[|bits| - 1] % 2 == 1 then w / 2 + 0x8000_0000 else w / 2
  }

  /** One shift-in step keeps the word equal to the bits drawn so far, scaled to the top. */
  lemma ShiftStep(bits: seq<nat>, i: nat, word: nat, word': nat)
    requires i < |bits| && i < 32
    requires word == PackBits(bits[..i]) * Pow2(32 - i)
    requires word' == if bits[i] % 2 == 1 then word / 2 + 0x8000_0000 else word / 2
    ensures word' == PackBits(bits[..i + 1]) * Pow2(32 - (i + 1))
  {
    var before, scale, b := PackBits(bits[..i]), Pow2(31 - i), bits[i] % 2;
    assert Pow2(32 - i) == 2 * scale;
    Halve(before, scale, word);
    Pow2Add(i, 31 - i);
    Pow2Values();
    assert bits[..i + 1] == bits[..i] + [bits[i]];
    PackBitsSnoc(bits[..i], bits[i]);
    Distribute(before, b, Pow2(i), scale);
  }

  /** After `k` shifts the word holds the `k` bits in its top `k` positions, first lowest. */
  lemma {:induction false} ShiftedInPacks(bits: seq<nat>)
    requires |bits| <= 32
    ensures ShiftedIn(bits) == PackBits(bits) * Pow2(32 - |bits|)
    decreases |bits|
  {
    if bits != [] {
      var i := |bits| - 1;
      ShiftedInPacks(bits[..i]);
      ShiftStep(bits, i, ShiftedIn(bits[..i]), ShiftedIn(bits));
      assert bits[..i + 1] == bits;
    }
  }

  lemma {:induction false} PackBitsConcat(a: seq<nat>, b: seq<nat>)
    ensures PackBits(a + b) == PackBits(a) + Pow2(|a|) * PackBits(b)
  {
    if a == [] {
      assert a + b == b;
    } else {
      assert (a + b)[1..] == a[1..] + b;
      PackBitsConcat(a[1..], b);
    }
  }

  /** The bits below position |a| and those from |a| up, read back from the packed number. */
  lemma PackBitsSplit(a: seq<nat>, b: seq<nat>)
    ensures PackBits(a + b) / Pow2(|a|) == PackBits(b)
    ensures PackBits(a + b) % Pow2(|a|) == PackBits(a)
  {
    var x, d, q, r := PackBits(a + b), Pow2(|a|), PackBits(b), PackBits(a);
    PackBitsConcat(a, b);
    PackBitsBound(a);
    DivModIsUnique(x, d, q, r);
  }

  /** A 32-bit word whose bit `j` is the low bit of `bits[j]`. */
  function PackWord(bits: seq<nat>): Word
    requires |bits| == 32
  {
    PackBitsBound(bits);
    Pow2Values();
    PackBits(bits)
  }

  /**
    Sixty-four bits written as a low word (bits 0-31) and a high word (bits 32-63) land in
    the binary64 fields: the mantissa is bits 0-51, the exponent bits 52-62, the sign bit 63.
   */
  lemma FieldsOfBits(bits: seq<nat>)
    requires |bits| == 64
    ensures FromWords(PackWord(bits[..32]), PackWord(bits[32..])).mantissa == PackBits(bits[..52])
    ensures FromWords(PackWord(bits[..32]), PackWord(bits[32..])).exponent == PackBits(bits[52..63])
    ensures FromWords(PackWord(bits[..32]), PackWord(bits[32..])).sign == bits[63] % 2
  {
    Pow2Values();
    var low, high := PackBits(bits[..32]), PackBits(bits[32..]);
    var m, e, sgn := bits[32..52], bits[52..63], bits[63..];
    assert bits[32..] == m + (e + sgn);
    PackBitsSplit(m, e + sgn);
    PackBitsSplit(e, sgn);
    assert high % 0x10_0000 == PackBits(m);
    assert high / 0x10_0000 == PackBits(e + sgn);
    assert bits[..52] == bits[..32] + m;
    PackBitsConcat(bits[..32], m);
    assert bits[32..] == (m + e) + sgn;
    PackBitsSplit(m + e, sgn);
    assert PackBits(sgn) == bits[63] % 2 by {
      assert sgn[1..] == [];
    }
  }

  /**
    One of the two shift-in loops of `Rand`: 32 times, shift the word right and put the
    low bit of the next `rand()` draw into bit 31. Afterwards bit `i` of the word is the
    bit drawn `i`-th: the first draw ends up least significant.
   */
  method ShiftIn(draws: seq<nat>) returns (word: Word)
    requires |draws| == 32
    ensures word == PackBits(draws)
    ensures forall j :: 0 <= j < 32 ==> BitOf(word, j) == draws[j] % 2
  {
    word := 0;
    var i := 0;
    while i < 32
      invariant 0 <= i <= 32
      invariant word == ShiftedIn(draws[..i])
    {
      assert draws[..i + 1][..i] == draws[..i];
      if draws[i] % 2 == 1 {
        word := word / 2 + 0x8000_0000;
      } else {
        word := word / 2;
      }
      i := i + 1;
    }
    assert draws[..32] == draws;
    ShiftedInPacks(draws);
    PackBitsBits(draws);
  }

  // ---- the exponent override ----

  function Abs(x: int): nat
  {
    if x < 0 then -x else x
  }

  /** C's `/` on `int`: the quotient truncated toward zero. */
  function CQuot(a: int, b: int): int
    requires b != 0
  {
    if (a < 0) == (b < 0) then Abs(a) / Abs(b) else -(Abs(a) / Abs(b))
  }

  /** C's `%` on `int`: the remainder takes the sign of the dividend. */
  function CRem(a: int, b: int): int
    requires b != 0
  {
    a - b * CQuot(a, b)
  }

  /**
    `((rand() % expo) - expo / 2) + 0x3ff`, before it is stored into the 11-bit field. For a
    positive spread it lies in a band of `expo` consecutive values starting at
    0x3ff - expo / 2; for a negative spread the band of |expo| values starts at
    0x3ff + |expo| / 2, above the bias.
   */
  function ForcedExponent(expo: int, r: nat): (e: int)
    requires expo != 0
    ensures expo > 0 ==> Bias - expo / 2 <= e <= Bias - expo / 2 + expo - 1
    ensures expo < 0 ==> Bias + (-expo) / 2 <= e <= Bias + (-expo) / 2 + (-expo) - 1
  {
    CRemOfNatural(r, expo);
    CRem(r, expo) - CQuot(expo, 2) + Bias
  }

  /** Storing an `int` into the unsigned 11-bit exponent field keeps it modulo 2^11. */
  function StoreExponent(x: int): ExponentField
  {
    x % 0x800
  }

  /**
    The exponent field `Rand` forces, given its `expo` and the draw `r` after the 64 bits.
    With a spread in [1, 2047] the forced exponent fits the field unchanged and is never all
    ones, so the drawn value is finite; with spread 0 the field is the bias.
   */
  function ExponentOverride(expo: int, r: nat): (e: ExponentField)
    ensures expo == 0 ==> e == Bias
    ensures 0 < expo <= 2047 ==> e == ForcedExponent(expo, r)
    ensures 0 <= expo <= 2047 ==> e < 0x7ff
  {
    if expo != 0 then StoreExponent(ForcedExponent(expo, r)) else Bias
  }

  lemma CRemOfNatural(r: nat, expo: int)
    requires expo != 0
    ensures 0 <= CRem(r, expo) < Abs(expo)
    ensures CRem(r, expo) == r % Abs(expo)
  {
    var m := Abs(expo);
    assert r == m * (r / m) + r % m;
    if expo < 0 {
      assert CRem(r, expo) == r - expo * (-(r / m));
    }
  }

  /** A spread of 2048 already makes the forced exponent wrap to all ones: not finite. */
  lemma ExponentOverrideWraps()
    ensures ExponentOverride(2048, 0) == 0x7ff
  {
    assert ForcedExponent(2048, 0) == -1;
  }
}
