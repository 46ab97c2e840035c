/** Consensus arithmetic of the proof-of-work rules: the "compact" (nBits)
    encoding of 256-bit targets, the proof-of-work check, the block subsidy
    schedule and the version-bits test. */
module Consensus {
  import opened Bytes
  import opened Js

  const COIN: nat := 100_000_000
  /** The subsidy of the first halving era: 50 coins, a 33-bit number. */
  const BASE_REWARD: nat := 50 * COIN
  /** Half the base subsidy, which fits in 32 bits and can be shifted with `>>>`. */
  const HALF_REWARD: nat := BASE_REWARD / 2
  /** The top three bits of a BIP 9 version word. */
  const VERSION_TOP_BITS: u32 := 0x2000_0000
  const VERSION_TOP_MASK: u32 := 0xe000_0000

  function Abs(x: int): nat
  {
    if x < 0 then -x else x
  }

  // ---------------------------------------------------------------------
  // The compact encoding, field by field

  /** The exponent byte of a compact word: the length of the target in bytes. */
  function CompactExponent(c: u32): nat
  {
    c / 0x100_0000
  }

  /** The 23-bit mantissa of a compact word. */
  function CompactMantissa(c: u32): nat
  {
    c % 0x80_0000
  }

  /** Bit 23 of a compact word, the sign of the target. */
  predicate CompactNegative(c: u32)
  {
    c / 0x80_0000 % 2 == 1
  }

  /** The magnitude an exponent and a mantissa stand for: the mantissa, as the
      top three bytes of a number `e` bytes long. */
  function PartsMagnitude(e: nat, m: nat): nat
  {
    if e <= 3 then
      var p := Pow2(8 * (3 - e));
      DivNonNeg(m, p);
      m / p
    else
      var p := Pow2(8 * (e - 3));
      MulNonNeg(m, p);
      m * p
  }

  /** The magnitude a compact word stands for. */
  function CompactMagnitude(c: u32): nat
  {
    PartsMagnitude(CompactExponent(c), CompactMantissa(c))
  }

  /** The number a compact word stands for. */
  function CompactValue(c: u32): int
  {
    if CompactNegative(c) then -(CompactMagnitude(c) as int) else CompactMagnitude(c)
  }

  // ---------------------------------------------------------------------
  // fromCompact

  /** `fromCompact(compact)`: the target a compact word encodes. */
  function FromCompact(compact: u32): (num: int)
  {
    if compact == 0 then 0
    else
      var exponent := ShiftRightUnsigned(compact, 24);
      var negative := And(ShiftRightUnsigned(compact, 23), 1);
      var mantissa := And(compact, 0x7f_ffff);
      AndLow23(compact);
      var magnitude := ShiftMantissa(mantissa, exponent);
      if negative != 0 then -(magnitude as int) else magnitude
  }

  /** The mantissa moved into place: `mantissa >>>= 8 * (3 - exponent)` for a
      short number, `num.iushln(8 * (exponent - 3))` for a long one. */
  function ShiftMantissa(mantissa: nat, exponent: nat): nat
  {
    if exponent <= 3 then ShiftRightUnsigned(mantissa, 8 * (3 - exponent))
    else Shl(mantissa, 8 * (exponent - 3))
  }

  /** The three fields of a compact word, as `>>>` and `&` extract them. */
  lemma CompactFieldOps(c: u32)
    ensures ShiftRightUnsigned(c, 24) == CompactExponent(c)
    ensures And(ShiftRightUnsigned(c, 23), 1) == c / 0x80_0000 % 2
    ensures And(c, 0x7f_ffff) == CompactMantissa(c)
  {
    Pow2Constants();
    ShiftRightUnsignedWord(c, 24);
    ShrIsDiv(c, 24);
    SignBitOf(c);
    AndLow23(c);
  }

  /** The shifts of `fromCompact` place the mantissa as PartsMagnitude does. */
  lemma MagnitudeShift(e: nat, m: nat)
    requires m < 0x80_0000
    ensures ShiftMantissa(m, e) == PartsMagnitude(e, m)
  {
    if e <= 3 {
      ShiftRightUnsignedWord(m, 8 * (3 - e));
      ShrIsDiv(m, 8 * (3 - e));
    } else {
      ShlIsMul(m, 8 * (e - 3));
    }
  }

  /** FromCompact decodes the exponent, sign and mantissa fields. */
  lemma FromCompactValue(c: u32)
    ensures FromCompact(c) == CompactValue(c)
  {
    if c != 0 {
      CompactFieldOps(c);
      MagnitudeShift(CompactExponent(c), CompactMantissa(c));
    }
  }

  /** A target is negative only when bit 23 of its compact word is set, and
      positive only when it is clear. */
  lemma FromCompactSign(c: u32)
    ensures FromCompact(c) < 0 ==> CompactNegative(c)
    ensures FromCompact(c) > 0 ==> !CompactNegative(c)
  {
    FromCompactValue(c);
  }

  // ---------------------------------------------------------------------
  // toCompact

  /** `num.toNumber()` sign applied to a magnitude. */
  function Signed(num: int, magnitude: nat): int
  {
    if num < 0 then -(magnitude as int) else magnitude
  }

  /** The mantissa `toCompact` starts from: the number's three most significant
      bytes, as a signed JavaScript number. */
  function InitialMantissa(num: int, exponent: nat): int
  {
    if exponent <= 3 then ShiftLeft(num, 8 * (3 - exponent))
    else Signed(num, Shr(Abs(num), 8 * (exponent - 3)))
  }

  /** Moving the mantissa down one byte when its bit 23 is set, so that it
      cannot be read back as a sign. */
  function NormalizeMantissa(mantissa: int, exponent: nat): (int, nat)
  {
    if And(mantissa, 0x80_0000) != 0 then (ShiftRight(mantissa, 8), exponent + 1)
    else (mantissa, exponent)
  }

  /** `(exponent << 24) | mantissa`, with the sign bit OR-ed in for a negative
      number, as an unsigned word. */
  function PackCompact(num: int, mantissa: int, exponent: nat): u32
  {
    var compact := Or(ShiftLeft(exponent, 24), mantissa);
    var signed := if num < 0 then Or(compact, 0x80_0000) else compact;
    ShiftRightUnsigned(signed, 0)
  }

  /** `toCompact(num)`, as written: for a negative number the mantissa is
      negative when it is tested, shifted and OR-ed into the exponent. */
  function ToCompact(num: int): (compact: u32)
  {
    if num == 0 then 0
    else
      var exponent := ByteLength(Abs(num));
      var (m, e) := NormalizeMantissa(InitialMantissa(num, exponent), exponent);
      PackCompact(num, m, e)
  }

  /** The exponent and mantissa a positive number is encoded with: its three top
      bytes, moved down one byte when bit 23 of them is set. */
  function CompactParts(n: nat): (nat, nat)
  {
    var e := ByteLength(n);
    var m0 := TopBytes(n, e);
    if m0 >= 0x80_0000 then (e + 1, m0 / 0x100) else (e, m0)
  }

  /** The three most significant bytes of a number `e` bytes long. */
  function TopBytes(n: nat, e: nat): nat
  {
    if e <= 3 then
      var p := Pow2(8 * (3 - e));
      MulNonNeg(n, p);
      n * p
    else
      var p := Pow2(8 * (e - 3));
      DivNonNeg(n, p);
      n / p
  }

  lemma MulLt(a: nat, b: nat, p: nat)
    requires a < b && p > 0
    ensures a * p < b * p
  {
    MulNonNeg(b - a - 1, p);
    assert (b - a) * p == b * p - a * p;
  }

  lemma MulLe(a: nat, b: nat, p: nat)
    requires a <= b
    ensures a * p <= b * p
  {
    MulNonNeg(b - a, p);
    assert (b - a) * p == b * p - a * p;
  }

  lemma DivLtOfLtMul(n: nat, p: nat, q: nat)
    requires p > 0 && n < q * p
    ensures n / p < q
  {
    var d := n / p;
    assert n == d * p + n % p;
    MulMono(q, d, p);
  }

  lemma DivGeOfMulLe(n: nat, p: nat, q: nat)
    requires p > 0 && q * p <= n
    ensures q <= n / p
  {
    var d := n / p;
    assert n == d * p + n % p;
    assert (d + 1) * p == d * p + p;
    MulMono(d + 1, q, p);
  }

  /** A number of at most three bytes, shifted up to fill three bytes. */
  lemma InitialMantissaShort(n: nat, e: nat)
    requires 1 <= e <= 3 && Pow2(8 * (e - 1)) <= n < Pow2(8 * e)
    ensures InitialMantissa(n, e) == TopBytes(n, e)
    ensures 0x1_0000 <= TopBytes(n, e) < 0x100_0000
  {
    var s := 8 * (3 - e);
    ShortScaled(n, e, s);
    ShortShift(n, s);
  }

  lemma ShortScaled(n: nat, e: nat, s: nat)
    requires 1 <= e <= 3 && s == 8 * (3 - e) && Pow2(8 * (e - 1)) <= n < Pow2(8 * e)
    ensures n < 0x100_0000 && 0x1_0000 <= n * Pow2(s) < 0x100_0000
  {
    Pow2Constants();
    Pow2Monotone(8 * e, 24);
    Pow2Add(8 * e, s);
    MulLt(n, Pow2(8 * e), Pow2(s));
    Pow2Add(8 * (e - 1), s);
    MulLe(Pow2(8 * (e - 1)), n, Pow2(s));
  }

  /** A left shift that stays below bit 31 multiplies. */
  lemma ShortShift(n: nat, s: nat)
    requires s < 32 && n < 0x100_0000 && n * Pow2(s) < 0x8000_0000
    ensures ShiftLeft(n, s) == n * Pow2(s)
  {
    ShiftLeftWord(n, s);
    ShlIsMul(n, s);
    ToInt32Small(n * Pow2(s));
  }

  /** The top three bytes of a number of more than three bytes. */
  lemma InitialMantissaLong(n: nat, e: nat)
    requires e > 3 && Pow2(8 * (e - 1)) <= n < Pow2(8 * e)
    ensures InitialMantissa(n, e) == TopBytes(n, e)
    ensures 0x1_0000 <= TopBytes(n, e) < 0x100_0000
  {
    var s := 8 * (e - 3);
    Pow2Constants();
    ShrIsDiv(n, s);
    Pow2Add(s, 24);
    DivLtOfLtMul(n, Pow2(s), 0x100_0000);
    Pow2Add(s, 16);
    DivGeOfMulLe(n, Pow2(s), 0x1_0000);
  }

  lemma InitialMantissaPositive(n: nat)
    requires n > 0
    ensures InitialMantissa(n, ByteLength(n)) == TopBytes(n, ByteLength(n))
    ensures 0 < TopBytes(n, ByteLength(n)) < 0x100_0000
    ensures ByteLength(n) >= 3 ==> 0x1_0000 <= TopBytes(n, ByteLength(n))
  {
    var e := ByteLength(n);
    ByteLengthBounds(n);
    if e <= 3 {
      InitialMantissaShort(n, e);
    } else {
      InitialMantissaLong(n, e);
    }
  }

  /** `mantissa & 0x800000` for a mantissa in [0, 2^24) tests whether it is at least 2^23. */
  lemma MantissaHighBit(m: nat)
    requires m < 0x100_0000
    ensures And(m, 0x80_0000) != 0 <==> m >= 0x80_0000
  {
    ToUint32Word(m);
    AndSignBit(m);
    HighBit(ToUint32(m));
  }

  /** Bit 23 of a 24-bit number is set exactly when it is at least 2^23. */
  lemma HighBit(m: nat)
    requires m < 0x100_0000
    ensures Bit(m, 23) <==> m >= 0x80_0000
  {
    var q := m / 0x80_0000;
    assert q == 0 || q == 1;
    Pow2Constants();
    BitOfSplit(m, 23, 0x80_0000, q, m % 0x80_0000);
  }

  lemma NormalizePositive(m: nat, e: nat)
    requires m < 0x100_0000
    ensures NormalizeMantissa(m, e) == if m >= 0x80_0000 then (m / 0x100, e + 1) else (m, e)
  {
    MantissaHighBit(m);
    if m >= 0x80_0000 {
      assert ToInt32(m) == m;
      assert ToUint32(8) % 32 == 8;
      assert ShiftRight(m, 8) == Shr(m, 8);
      ShrIsDiv(m, 8);
      Pow2Constants();
    }
  }

  /** Packing a non-negative number keeps the low byte of the exponent above a
      mantissa below 2^24: `exponent << 24` drops the exponent's higher bits. */
  lemma PackWrap(num: int, m: nat, e: nat)
    requires num >= 0 && m < 0x100_0000
    ensures PackCompact(num, m, e) == (e % 0x100) * 0x100_0000 + m
  {
    PackUnsigned(num, m, e);
    OrExponentWrap(e, m);
  }

  lemma PackUnsigned(num: int, m: int, e: nat)
    requires num >= 0
    ensures PackCompact(num, m, e) == ToUint32(Or(ShiftLeft(e, 24), m))
  {
    UnsignedImage(Or(ShiftLeft(e, 24), m));
  }

  /** For every positive number, toCompact packs the parts of CompactParts: the
      low byte of the exponent in the top byte, the mantissa below bit 23, and
      the sign bit clear. */
  lemma ToCompactWrap(n: nat)
    requires 0 < n
    ensures ToCompact(n) == (CompactParts(n).0 % 0x100) * 0x100_0000 + CompactParts(n).1
    ensures CompactParts(n).1 < 0x80_0000
    ensures CompactExponent(ToCompact(n)) == CompactParts(n).0 % 0x100
    ensures CompactMantissa(ToCompact(n)) == CompactParts(n).1
    ensures !CompactNegative(ToCompact(n))
  {
    var p := CompactParts(n);
    var c := ToCompact(n);
    ToCompactPack(n);
    PackWrap(n, p.1, p.0);
    CompactFields(c, p.0 % 0x100, p.1);
  }

  lemma ToCompactPack(n: nat)
    requires 0 < n
    ensures ToCompact(n) == PackCompact(n, CompactParts(n).1, CompactParts(n).0)
    ensures CompactParts(n).1 < 0x80_0000
  {
    PartsNormalize(n);
    assert Abs(n) == n;
  }

  /** toCompact never sets the sign bit of a non-negative number. */
  lemma ToCompactSignClear(n: nat)
    ensures !CompactNegative(ToCompact(n))
  {
    if n > 0 {
      ToCompactWrap(n);
    }
  }

  /** For a positive number below 2^(8*126), toCompact packs the exponent and
      mantissa of CompactParts unchanged: exponent in the top byte, mantissa
      below bit 23. */
  lemma ToCompactPositive(n: nat)
    requires 0 < n && ByteLength(n) < 127
    ensures ToCompact(n) == CompactParts(n).0 * 0x100_0000 + CompactParts(n).1
    ensures CompactParts(n).1 < 0x80_0000 && CompactParts(n).0 < 0x80
    ensures CompactExponent(ToCompact(n)) == CompactParts(n).0
    ensures CompactMantissa(ToCompact(n)) == CompactParts(n).1
    ensures !CompactNegative(ToCompact(n))
  {
    var e := CompactParts(n).0;
    ToCompactWrap(n);
    PartsNormalize(n);
    DivUnique(e, 0x100, 0, e);
  }

  /** The parts of a positive number are what toCompact's normalisation step
      makes of its initial mantissa. */
  lemma PartsNormalize(n: nat)
    requires 0 < n
    ensures NormalizeMantissa(InitialMantissa(n, ByteLength(n)), ByteLength(n))
      == (CompactParts(n).1 as int, CompactParts(n).0)
    ensures CompactParts(n).1 < 0x80_0000
    ensures ByteLength(n) < 127 ==> CompactParts(n).0 < 0x80
  {
    var e0 := ByteLength(n);
    InitialMantissaPositive(n);
    var m0 := TopBytes(n, e0);
    NormalizePositive(m0, e0);
  }

  /** The fields of the word `e * 2^24 + m` with a mantissa below 2^23. */
  lemma CompactFields(c: u32, e: nat, m: nat)
    requires m < 0x80_0000 && e < 0x100 && c == e * 0x100_0000 + m
    ensures CompactExponent(c) == e
    ensures CompactMantissa(c) == m
    ensures !CompactNegative(c)
  {
    DivUnique(c, 0x100_0000, e, m);
    DivUnique(c, 0x80_0000, 2 * e, m);
  }

  /** The value of the parts of a positive number: the number with the bytes
      below its three top ones cleared. */
  function Truncated(n: nat, e: nat): nat
  {
    var s := if e > 3 then 8 * (e - 3) else 0;
    RoundDown(n, Pow2(s))
  }

  /** `n` rounded down to a multiple of `p`. */
  function RoundDown(n: nat, p: nat): (r: nat)
    requires p > 0
    ensures r <= n && n - r < p
  {
    var q := n / p;
    assert n == q * p + n % p;
    MulNonNeg(q, p);
    q * p
  }

  lemma PartsShortNoCarry(n: nat, e0: nat)
    requires 1 <= e0 <= 3
    ensures TopBytes(n, e0) / Pow2(8 * (3 - e0)) == n
  {
    MulDivCancel(n, Pow2(8 * (3 - e0)));
  }

  lemma PartsShortCarry(n: nat, e0: nat)
    requires 1 <= e0 <= 2
    ensures TopBytes(n, e0) / 0x100 / Pow2(8 * (2 - e0)) == n
  {
    var m0 := TopBytes(n, e0);
    Pow2Constants();
    DivPow2Twice(m0, 8, 8 * (2 - e0));
    assert 8 + 8 * (2 - e0) == 8 * (3 - e0);
    MulDivCancel(n, Pow2(8 * (3 - e0)));
  }

  lemma PartsLongCarry(n: nat, e0: nat)
    requires e0 > 3
    ensures TopBytes(n, e0) / 0x100 == n / Pow2(8 * (e0 + 1 - 3))
  {
    Pow2Constants();
    DivPow2Twice(n, 8 * (e0 - 3), 8);
    assert 8 * (e0 - 3) + 8 == 8 * (e0 + 1 - 3);
  }

  /** What the parts of a positive number encode, case by case. */
  lemma PartsValue(n: nat)
    requires n > 0
    ensures PartsMagnitude(CompactParts(n).0, CompactParts(n).1) == Truncated(n, CompactParts(n).0)
  {
    var e0 := ByteLength(n);
    ByteLengthBounds(n);
    InitialMantissaPositive(n);
    var m0 := TopBytes(n, e0);
    if e0 <= 3 {
      if m0 < 0x80_0000 {
        ValueShortNoCarry(n, e0);
      } else if e0 < 3 {
        ValueShortCarry(n, e0);
      } else {
        ValueThreeCarry(n);
      }
    } else if m0 >= 0x80_0000 {
      ValueLongCarry(n, e0);
    }
  }

  lemma ValueShortNoCarry(n: nat, e0: nat)
    requires 1 <= e0 <= 3
    ensures PartsMagnitude(e0, TopBytes(n, e0)) == Truncated(n, e0)
  {
    PartsShortNoCarry(n, e0);
    assert Pow2(0) == 1;
  }

  lemma ValueShortCarry(n: nat, e0: nat)
    requires 1 <= e0 <= 2
    ensures PartsMagnitude(e0 + 1, TopBytes(n, e0) / 0x100) == Truncated(n, e0 + 1)
  {
    PartsShortCarry(n, e0);
    assert Pow2(0) == 1;
  }

  lemma ValueThreeCarry(n: nat)
    ensures PartsMagnitude(4, TopBytes(n, 3) / 0x100) == Truncated(n, 4)
  {
    assert Pow2(0) == 1;
    assert TopBytes(n, 3) == n;
  }

  lemma ValueLongCarry(n: nat, e0: nat)
    requires e0 > 3
    ensures PartsMagnitude(e0 + 1, TopBytes(n, e0) / 0x100) == Truncated(n, e0 + 1)
  {
    PartsLongCarry(n, e0);
  }

  /** Decoding the encoding of a positive number gives the number with every
      byte below the mantissa's three cleared; a number below 2^23 comes back
      unchanged. */
  lemma CompactRoundTrip(n: nat)
    requires 0 < n && ByteLength(n) < 127
    ensures FromCompact(ToCompact(n)) == Truncated(n, CompactExponent(ToCompact(n)))
    ensures n < 0x80_0000 ==> FromCompact(ToCompact(n)) == n
  {
    var c := ToCompact(n);
    ToCompactPositive(n);
    FromCompactValue(c);
    PartsValue(n);
    if n < 0x80_0000 {
      SmallExponent(n);
      assert Pow2(0) == 1;
    }
  }

  /** A number below 2^23 is encoded with an exponent of at most 3. */
  lemma SmallExponent(n: nat)
    requires 0 < n < 0x80_0000
    ensures CompactParts(n).0 <= 3
  {
    var e0 := ByteLength(n);
    ByteLengthBounds(n);
    Pow2Constants();
    Pow2Monotone(24, if e0 >= 4 then 8 * (e0 - 1) else 24);
    InitialMantissaPositive(n);
    if e0 == 3 {
      assert TopBytes(n, 3) == n * Pow2(0);
      assert Pow2(0) == 1;
    }
  }

  /** A compact word in the form toCompact produces for a number of three or
      more bytes: sign clear, exponent at least 3, mantissa of at least two
      significant bytes. */
  predicate CanonicalCompact(c: u32)
  {
    !CompactNegative(c) && 3 <= CompactExponent(c) && 0x8000 <= CompactMantissa(c)
  }

  /** A word is its exponent, sign and mantissa fields put back together. */
  lemma CompactSplit(c: u32)
    ensures c == CompactExponent(c) * 0x100_0000 + (c / 0x80_0000 % 2) * 0x80_0000 + CompactMantissa(c)
  {
  }

  /** The value a canonical word stands for. */
  lemma CanonicalValue(c: u32)
    requires CanonicalCompact(c)
    ensures FromCompact(c) == CompactMantissa(c) * Pow2(8 * (CompactExponent(c) - 3))
  {
    FromCompactValue(c);
    if CompactExponent(c) == 3 {
      assert Pow2(0) == 1;
    }
  }

  lemma ScaledBounds(m: nat, lo: nat, hi: nat, k: nat)
    requires Pow2(lo) <= m < Pow2(hi)
    ensures Pow2(lo + k) <= m * Pow2(k) < Pow2(hi + k)
  {
    Pow2Add(lo, k);
    Pow2Add(hi, k);
    MulLe(Pow2(lo), m, Pow2(k));
    MulLt(m, Pow2(hi), Pow2(k));
  }

  /** The parts of the value of a canonical word with three significant
      mantissa bytes are its own exponent and mantissa. */
  lemma CanonicalPartsWide(e: nat, m: nat)
    requires 3 <= e && 0x1_0000 <= m < 0x80_0000
    ensures CompactParts(m * Pow2(8 * (e - 3))) == (e, m)
  {
    var s := 8 * (e - 3);
    var v := m * Pow2(s);
    Pow2Constants();
    ScaledBounds(m, 16, 24, s);
    ByteLengthOf(v, e);
    if e == 3 {
      assert Pow2(0) == 1;
    } else {
      MulDivCancel(m, Pow2(s));
    }
  }

  /** The value of a canonical word with two significant mantissa bytes is one
      byte shorter, and its top bytes carry back to the same word. */
  lemma CanonicalPartsNarrow(e: nat, m: nat)
    requires 3 <= e && 0x8000 <= m < 0x1_0000
    ensures CompactParts(m * Pow2(8 * (e - 3))) == (e, m)
  {
    var v := m * Pow2(8 * (e - 3));
    NarrowLength(e, m, v);
    TopBytesCarry(m, e);
    MulDivCancel(m, 0x100);
  }

  lemma NarrowLength(e: nat, m: nat, v: nat)
    requires 3 <= e && 0x8000 <= m < 0x1_0000 && v == m * Pow2(8 * (e - 3))
    ensures ByteLength(v) == e - 1
  {
    var s := 8 * (e - 3);
    Pow2Constants();
    ScaledBounds(m, 15, 16, s);
    Pow2Monotone(8 * (e - 2), 15 + s);
    ByteLengthOf(v, e - 1);
  }

  /** Encoding the value of a canonical word gives the word back. */
  lemma CompactCanonical(c: u32)
    requires CanonicalCompact(c)
    ensures ToCompact(FromCompact(c)) == c
  {
    var e := CompactExponent(c);
    var m := CompactMantissa(c);
    var v := FromCompact(c);
    CanonicalValue(c);
    MulNonNeg(m, Pow2(8 * (e - 3)));
    Pow2Constants();
    if m >= 0x1_0000 {
      CanonicalPartsWide(e, m);
    } else {
      CanonicalPartsNarrow(e, m);
    }
    assert v > 0 by {
      MulLe(1, m, Pow2(8 * (e - 3)));
    }
    ToCompactWrap(v);
    DivUnique(e, 0x100, 0, e);
    CompactSplit(c);
  }

  /** The value of a canonical word whose mantissa has only two significant
      bytes has one byte fewer; its top three bytes carry. */
  lemma TopBytesCarry(m: nat, e: nat)
    requires 3 <= e && m < 0x1_0000
    ensures TopBytes(m * Pow2(8 * (e - 3)), e - 1) == m * 0x100
  {
    var s := 8 * (e - 3);
    Pow2Constants();
    if e - 1 <= 3 {
      var t := 8 * (3 - (e - 1));
      Pow2Add(s, t);
      assert s + t == 8;
      MulAssoc(m, Pow2(s), Pow2(t));
    } else {
      var t := 8 * (e - 1 - 3);
      Pow2Add(t, 8);
      assert s == t + 8;
      MulAssoc(m, Pow2(8), Pow2(t));
      MulDivCancel(m * 0x100, Pow2(t));
    }
  }

  lemma MulAssoc(a: int, b: int, c: int)
    ensures a * b * c == a * (b * c)
  {
  }

  /** Encoding is idempotent: re-encoding a decoded encoding changes nothing. */
  lemma ToCompactIdempotent(n: nat)
    requires 0 < n && ByteLength(n) < 126
    ensures ToCompact(FromCompact(ToCompact(n))) == ToCompact(n)
  {
    var c := ToCompact(n);
    ToCompactPositive(n);
    if CompactParts(n).0 > 3 {
      LongCanonical(n);
      CompactCanonical(c);
    } else {
      ShortRoundTrip(n);
    }
  }

  /** A number encoded with an exponent above 3 is encoded canonically. */
  lemma LongCanonical(n: nat)
    requires 0 < n && ByteLength(n) < 126 && CompactParts(n).0 > 3
    ensures CanonicalCompact(ToCompact(n))
  {
    ToCompactPositive(n);
    InitialMantissaPositive(n);
  }

  /** A number encoded with an exponent of at most 3 decodes back to itself. */
  lemma ShortRoundTrip(n: nat)
    requires 0 < n && ByteLength(n) < 126 && CompactParts(n).0 <= 3
    ensures FromCompact(ToCompact(n)) == n
  {
    ToCompactPositive(n);
    CompactRoundTrip(n);
    assert Pow2(0) == 1;
  }

  // ---------------------------------------------------------------------
  // toCompact on negative numbers

  /** As written, `toCompact` encodes -1 as 0xffffff00: the mantissa
      `-1 << 16` is a negative 32-bit number, so `mantissa & 0x800000` moves it
      down a byte, and OR-ing it with the exponent fills the exponent byte with
      ones. That word decodes to a negative number of 255 bytes, far outside
      the 256-bit range, not to -1. */
  lemma ToCompactMinusOne(n: int)
    requires n == -1
    ensures ToCompact(n) == 0xffff_ff00
    ensures CompactExponent(ToCompact(n)) == 0xff
    ensures FromCompact(ToCompact(n)) < -(Pow2(256) as int)
  {
    assert ByteLength(Abs(n)) == 1 by {
      assert ByteLength(0) == 0;
    }
    var m0 := InitialMantissa(n, 1);
    MinusOneMantissa(n);
    MinusOneNormalize(m0);
    assert ToCompact(n) == PackCompact(n, -0x100, 2);
    MinusOnePack(n, -0x100, 2);
    MinusOneDecode(ToCompact(n));
  }

  lemma MinusOneMantissa(n: int)
    requires n == -1
    ensures InitialMantissa(n, 1) == -0x1_0000
  {
    var u := ToUint32(n);
    assert u == 0xffff_ffff;
    assert ToUint32(16) % 32 == 16;
    ShlIsMul(u, 16);
    Pow2Constants();
    var w := Shl(u, 16);
    assert ToUint32(w) == 0xffff_0000;
  }

  lemma MinusOneNormalize(m: int)
    requires m == -0x1_0000
    ensures NormalizeMantissa(m, 1) == (-0x100, 2)
  {
    assert ToUint32(8) % 32 == 8;
    ShrIsDiv(m, 8);
    var u := ToUint32(m);
    assert u == 0xffff_0000;
    Pow2Constants();
    BitOfSplit(u, 23, 0x80_0000, 0x1ff, 0x7f_0000);
    AndSignBit(m);
  }

  lemma MinusOnePack(n: int, m: int, e: nat)
    requires n < 0 && m == -0x100 && e == 2
    ensures PackCompact(n, m, e) == 0xffff_ff00
  {
    Pow2Constants();
    ShiftLeftWord(e, 24);
    ShlIsMul(e, 24);
    ToInt32Small(0x200_0000);
    var h := ShiftLeft(e, 24);
    MinusOneExponentOr(h, m);
    MinusOneSignOr(m);
    UnsignedImage(Or(m, 0x80_0000));
  }

  /** `(2 << 24) | -256` is -256: every bit of the exponent is already set. */
  lemma MinusOneExponentOr(h: int, m: int)
    requires h == 0x200_0000 && m == -0x100
    ensures Or(h, m) == m
  {
    var w := ToUint32(m);
    assert w == 0xffff_ff00;
    assert ToUint32(h) == h;
    assert ToUint32(w) == w;
    assert Or(h, m) == ToInt32(BitOr(h, w));
    Pow2Constants();
    assert h == Pow2(25);
    BitOfSplit(w, 25, 0x200_0000, 0x7f, 0x1ff_ff00);
    BitOrPow2(w, 25);
    assert BitOr(w, h) == w;
    BitOrComm(h, w);
    assert ToInt32(BitOr(h, w)) == ToInt32(w);
  }

  /** `-256 | 0x800000` is -256 again, the unsigned word 0xffffff00. */
  lemma MinusOneSignOr(m: int)
    requires m == -0x100
    ensures ToUint32(Or(m, 0x80_0000)) == 0xffff_ff00
  {
    Pow2Constants();
    var w := ToUint32(m);
    assert w == 0xffff_ff00;
    assert Or(m, 0x80_0000) == Or(w, 0x80_0000);
    OrSignBitWord(w);
    BitOfSplit(w, 23, 0x80_0000, 0x1ff, 0x7f_ff00);
  }

  lemma MinusOneDecode(c: u32)
    requires c == 0xffff_ff00
    ensures CompactExponent(c) == 0xff
    ensures FromCompact(c) < -(Pow2(256) as int)
  {
    assert CompactExponent(c) == 0xff;
    assert CompactMantissa(c) == 0x7f_ff00;
    assert CompactNegative(c);
    var p := Pow2(8 * (CompactExponent(c) - 3));
    Pow2Monotone(256, 8 * (CompactExponent(c) - 3));
    MulLe(1, 0x7f_ff00, p);
    FromCompactValue(c);
  }

  /** The encoding `toCompact` evidently intends for a negative number, as the
      C++ reference client writes it: encode the magnitude, then set the sign
      bit 23, which the normalisation step has left clear. */
  function ToCompactSignMagnitude(num: int): (compact: u32)
  {
    if num < 0 then ShiftRightUnsigned(Or(ToCompact(Abs(num)), 0x80_0000), 0)
    else ToCompact(num)
  }

  /** The sign-magnitude encoding of a negative number decodes to the negated
      decoding of its magnitude, so a number above -2^23 comes back unchanged. */
  lemma SignMagnitudeRoundTrip(n: int)
    requires n < 0 && ByteLength(-n) < 127
    ensures FromCompact(ToCompactSignMagnitude(n)) == -FromCompact(ToCompact(-n))
    ensures -0x80_0000 < n ==> FromCompact(ToCompactSignMagnitude(n)) == n
  {
    var a: nat := -n;
    assert Abs(n) == a;
    var c := ToCompact(a);
    ToCompactPositive(a);
    var p := CompactParts(a);
    SetSign(c, p.0, p.1);
    assert ToCompactSignMagnitude(n) == c + 0x80_0000;
    NegatedValue(c);
    if a < 0x80_0000 {
      CompactRoundTrip(a);
    }
  }

  /** Setting the sign bit of a word whose sign bit is clear negates the value. */
  lemma NegatedValue(c: u32)
    requires !CompactNegative(c) && c + 0x80_0000 < TWO_32
    requires CompactNegative(c + 0x80_0000)
    requires CompactExponent(c + 0x80_0000) == CompactExponent(c)
    requires CompactMantissa(c + 0x80_0000) == CompactMantissa(c)
    ensures FromCompact(c + 0x80_0000) == -FromCompact(c)
  {
    FromCompactValue(c);
    FromCompactValue(c + 0x80_0000);
  }

  /** `c | 0x800000 >>> 0` for a word `e * 2^24 + m` with a clear sign bit. */
  lemma SetSign(c: u32, e: nat, m: nat)
    requires m < 0x80_0000 && e < 0x80 && c == e * 0x100_0000 + m
    ensures ShiftRightUnsigned(Or(c, 0x80_0000), 0) == c + 0x80_0000 < TWO_32
    ensures !CompactNegative(c) && CompactNegative(c + 0x80_0000)
    ensures CompactExponent(c + 0x80_0000) == CompactExponent(c)
    ensures CompactMantissa(c + 0x80_0000) == CompactMantissa(c)
  {
    SetSignWord(c, e, m);
    CompactFields(c, e, m);
    SignedFields(e, m);
  }

  lemma SetSignWord(c: u32, e: nat, m: nat)
    requires m < 0x80_0000 && e < 0x80 && c == e * 0x100_0000 + m
    ensures ShiftRightUnsigned(Or(c, 0x80_0000), 0) == c + 0x80_0000 < TWO_32
  {
    SignBitClear(c, e, m);
    OrSignBitWord(c);
    UnsignedImage(Or(c, 0x80_0000));
  }

  lemma SignBitClear(c: nat, e: nat, m: nat)
    requires m < 0x80_0000 && e < 0x80 && c == e * 0x100_0000 + m
    ensures !Bit(c, 23)
  {
    var q := 2 * e;
    assert q % 2 == 0;
    Pow2Constants();
    BitOfSplit(c, 23, 0x80_0000, q, m);
  }

  /** The fields of the word `e * 2^24 + 2^23 + m`: a negative number. */
  lemma SignedFields(e: nat, m: nat)
    requires m < 0x80_0000 && e < 0x80
    ensures CompactExponent(e * 0x100_0000 + 0x80_0000 + m) == e
    ensures CompactMantissa(e * 0x100_0000 + 0x80_0000 + m) == m
    ensures CompactNegative(e * 0x100_0000 + 0x80_0000 + m)
  {
    var c := e * 0x100_0000 + 0x80_0000 + m;
    DivUnique(c, 0x100_0000, e, 0x80_0000 + m);
    DivUnique(c, 0x80_0000, 2 * e + 1, m);
  }

  // ---------------------------------------------------------------------
  // verifyPOW

  /** `verifyPOW(hash, bits)`: the hash, read as a little-endian number, is at
      most the target `bits` encodes, and that target is a positive 256-bit number. */
  predicate VerifyPow(hash: Hash, bits: u32)
  {
    var target := FromCompact(bits);
    if target < 0 || target == 0 then false
    else if BitLength(target) > 256 then false
    else
      var num := LeValue(hash);
      if num > target then false else true
  }

  lemma VerifyPowMeaning(hash: Hash, bits: u32)
    ensures VerifyPow(hash, bits) <==>
      0 < FromCompact(bits) < Pow2(256) && LeValue(hash) <= FromCompact(bits)
  {
    var target := FromCompact(bits);
    if target > 0 {
      BitLengthAbove(target, 256);
    }
  }

  /** A word with the sign bit set never admits a block. */
  lemma VerifyPowRejectsNegative(hash: Hash, bits: u32)
    requires CompactNegative(bits)
    ensures !VerifyPow(hash, bits)
  {
    FromCompactSign(bits);
  }

  /** A word with an exponent of 35 or more stands for zero or for at least
      2^256, and never admits a block. */
  lemma VerifyPowRejectsWide(hash: Hash, bits: u32)
    requires CompactExponent(bits) >= 35
    ensures !VerifyPow(hash, bits)
  {
    VerifyPowMeaning(hash, bits);
    FromCompactValue(bits);
    WideValue(bits);
  }

  lemma WideValue(bits: u32)
    requires CompactExponent(bits) >= 35
    ensures CompactValue(bits) <= 0 || CompactValue(bits) >= Pow2(256)
  {
    var m := CompactMantissa(bits);
    var s := 8 * (CompactExponent(bits) - 3);
    var p := Pow2(s);
    assert CompactMagnitude(bits) == m * p;
    if m > 0 {
      Pow2Monotone(256, s);
      MulLe(1, m, p);
    }
  }

  // ---------------------------------------------------------------------
  // getReward

  /** `Math.floor(a / b)` for a non-negative `a` and a non-zero `b`. */
  function FloorDiv(a: nat, b: int): int
    requires b != 0
  {
    if b > 0 then a / b else -((a - b - 1) / -b)
  }

  /** `getReward(height, interval)`: the block subsidy, in satoshis, at a
      height; `None` where the height assertion fails. A zero interval makes
      `height / interval` Infinity, or NaN at height 0. */
  function GetReward(height: int, interval: int): (r: Option<nat>)
    ensures r.None? <==> height < 0
  {
    if height < 0 then None
    else if interval == 0 then
      if height > 0 then Some(0) else Some(HALF_REWARD)
    else
      var halvings := FloorDiv(height, interval);
      if halvings >= 33 then Some(0)
      else if halvings == 0 then Some(BASE_REWARD)
      else Some(ShiftRightUnsigned(HALF_REWARD, halvings - 1))
  }

  /** The subsidy schedule: 50 coins, halved (rounding down) once per interval. */
  lemma GetRewardSchedule(height: int, interval: int)
    requires interval > 0
    ensures height < 0 ==> GetReward(height, interval) == None
    ensures height >= 0 ==> GetReward(height, interval) == Some(BASE_REWARD / Pow2(height / interval))
  {
    if height >= 0 {
      var h := height / interval;
      if h >= 33 {
        Pow2Monotone(33, h);
        Pow2Add(32, 1);
        Pow2Constants();
        DivUnique(BASE_REWARD, Pow2(h), 0, BASE_REWARD);
      } else if h == 0 {
        assert Pow2(0) == 1;
      } else {
        ShiftRightUnsignedWord(HALF_REWARD, h - 1);
        ShrIsDiv(HALF_REWARD, h - 1);
        DivPow2Twice(BASE_REWARD, 1, h - 1);
        assert Pow2(1) == 2;
      }
    }
  }

  /** A zero or negative interval. With a zero interval `height / interval`
      is Infinity, so every block after the genesis block earns nothing; at
      height 0 it is NaN, which fails both comparisons and makes the shift
      count zero, so the genesis block earns `HALF_REWARD`. With a negative
      interval every later block has a negative number of halvings, so the
      shift count `halvings - 1` wraps to its low five bits: the subsidy is 25
      coins halved that many times; the genesis block (`-0` halvings) earns the
      full 50 coins. */
  lemma GetRewardDegenerate(height: int, interval: int)
    requires interval <= 0
    ensures height < 0 ==> GetReward(height, interval) == None
    ensures interval == 0 && height == 0 ==> GetReward(height, interval) == Some(HALF_REWARD)
    ensures interval == 0 && height > 0 ==> GetReward(height, interval) == Some(0)
    ensures interval < 0 && height == 0 ==> GetReward(height, interval) == Some(BASE_REWARD)
    ensures interval < 0 && height > 0 ==>
      (FloorDiv(height, interval) < 0 &&
       GetReward(height, interval) == Some(HALF_REWARD / Pow2((FloorDiv(height, interval) - 1) % 32)))
  {
    if interval < 0 && height > 0 {
      NegativeHalvings(height, interval);
    } else if interval < 0 && height == 0 {
      assert FloorDiv(height, interval) == 0 by {
        DivUnique(-interval - 1, -interval, 0, -interval - 1);
      }
    }
  }

  lemma NegativeHalvings(height: nat, interval: int)
    requires interval < 0 && height > 0
    ensures FloorDiv(height, interval) < 0
    ensures GetReward(height, interval) == Some(HALF_REWARD / Pow2((FloorDiv(height, interval) - 1) % 32))
  {
    var h := FloorDiv(height, interval);
    HalvingsNegative(height, interval);
    var k := (h - 1) % 32;
    ShiftCountOfWord(h - 1);
    ToUint32Word(HALF_REWARD);
    assert ShiftRightUnsigned(HALF_REWARD, h - 1) == Shr(HALF_REWARD, k);
    ShrIsDiv(HALF_REWARD, k);
  }

  lemma HalvingsNegative(height: nat, interval: int)
    requires interval < 0 && height > 0
    ensures FloorDiv(height, interval) < 0
  {
    var d := -interval;
    DivGeOfMulLe(height + d - 1, d, 1);
  }

  /** Later blocks never earn more, and no block earns more than 50 coins. */
  lemma GetRewardNonIncreasing(h1: nat, h2: nat, interval: int)
    requires interval > 0 && h1 <= h2
    ensures GetReward(h2, interval).value <= GetReward(h1, interval).value <= BASE_REWARD
  {
    GetRewardSchedule(h1, interval);
    GetRewardSchedule(h2, interval);
    DivNonNeg(h1, interval);
    var a, b := h1 / interval, h2 / interval;
    DivMonotone(h1, h2, interval);
    Pow2Monotone(a, b);
    DivByLarger(BASE_REWARD, Pow2(a), Pow2(b));
    DivByLarger(BASE_REWARD, 1, Pow2(a));
  }

  lemma DivMonotone(a: nat, b: nat, d: int)
    requires a <= b && d > 0
    ensures a / d <= b / d
  {
    var qa, qb := a / d, b / d;
    assert a == qa * d + a % d && b == qb * d + b % d;
    assert (qb + 1) * d == qb * d + d;
    MulMono(qb + 1, qa, d);
  }

  lemma DivByLarger(n: nat, p: nat, q: nat)
    requires 0 < p <= q
    ensures n / q <= n / p
  {
    MulLe(p, q, n / q);
    MulNonNeg(n / q, p);
    DivGeOfMulLe(n, p, n / q);
  }

  /** The last era with a subsidy is the 32nd: one satoshi; from the 33rd on, nothing. */
  lemma LastSubsidy(interval: int)
    requires interval > 0
    ensures GetReward(32 * interval, interval) == Some(1)
    ensures GetReward(33 * interval, interval) == Some(0)
  {
    MulDivCancel(32, interval);
    MulDivCancel(33, interval);
    GetRewardSchedule(32 * interval, interval);
    GetRewardSchedule(33 * interval, interval);
    Pow2Constants();
    Pow2Add(32, 1);
    DivUnique(BASE_REWARD, Pow2(32), 1, BASE_REWARD - TWO_32);
    DivUnique(BASE_REWARD, Pow2(33), 0, BASE_REWARD);
  }

  // ---------------------------------------------------------------------
  // hasBit

  /** `hasBit(version, bit)`: the version word uses the BIP 9 scheme and
      signals `bit`. */
  predicate HasBit(version: int, bit: int)
  {
    var bits := ShiftRightUnsigned(And(version, VERSION_TOP_MASK), 0);
    var mask := ShiftLeft(1, bit);
    bits == VERSION_TOP_BITS && And(version, mask) != 0
  }

  /** A version signals a bit exactly when its top three bits are 001 and bit
      `bit mod 32` is set. */
  lemma HasBitMeaning(version: int, bit: int)
    ensures HasBit(version, bit) <==>
      Shr(ToUint32(version), 29) == 1 && Bit(ToUint32(version), ToUint32(bit) % 32)
  {
    TopBitsMeaning(version);
    MaskMeaning(version, bit);
  }

  lemma TopBitsMeaning(version: int)
    ensures ShiftRightUnsigned(And(version, VERSION_TOP_MASK), 0) == VERSION_TOP_BITS
      <==> Shr(ToUint32(version), 29) == 1
  {
    var top := Shr(ToUint32(version), 29);
    AndTopMask(version);
    ShlIsMul(top, 29);
    Pow2Constants();
    assert top * 0x2000_0000 == 0x2000_0000 <==> top == 1;
  }

  lemma MaskMeaning(version: int, bit: int)
    ensures And(version, ShiftLeft(1, bit)) != 0 <==> Bit(ToUint32(version), ToUint32(bit) % 32)
  {
    var k := ToUint32(bit) % 32;
    assert ShiftLeft(1, bit) == ShiftLeft(1, k) by {
      assert ToUint32(k) % 32 == k;
    }
    AndBit(version, k);
  }
}
