/** JavaScript's 32-bit integer operators on Numbers that hold integers:
    ToUint32, ToInt32, `&`, `|`, `<<`, `>>` and `>>>` (ECMAScript 2015,
    sections 7.1.5, 7.1.6, 12.5 and 12.11). Bitwise AND and OR are written
    bit by bit over the unsigned 32-bit images of the operands; shifts are
    repeated doubling and halving, so that unfolding them stays linear. */
module Js {
  import opened Bytes

  const TWO_32: nat := 0x1_0000_0000

  function ToUint32(x: int): u32
  {
    x % 0x1_0000_0000
  }

  function ToInt32(x: int): int
  {
    var u := ToUint32(x);
    if u < 0x8000_0000 then u else u - 0x1_0000_0000
  }

  /** Bit `k` of a non-negative integer. */
  predicate Bit(x: nat, k: nat)
  {
    Shr(x, k) % 2 == 1
  }

  /** The low `k` bits of a non-negative integer. */
  function LowBits(x: nat, k: nat): nat
  {
    if k == 0 then 0 else 2 * LowBits(x / 2, k - 1) + x % 2
  }

  /** Bitwise AND of two non-negative integers. */
  function BitAnd(a: nat, b: nat): nat
    decreases a
  {
    if a == 0 || b == 0 then 0
    else 2 * BitAnd(a / 2, b / 2) + (if a % 2 == 1 && b % 2 == 1 then 1 else 0)
  }

  /** Bitwise OR of two non-negative integers. */
  function BitOr(a: nat, b: nat): nat
    decreases a + b
  {
    if a == 0 then b
    else if b == 0 then a
    else 2 * BitOr(a / 2, b / 2) + (if a % 2 == 1 || b % 2 == 1 then 1 else 0)
  }

  /** `a & b` */
  function And(a: int, b: int): int
  {
    ToInt32(BitAnd(ToUint32(a), ToUint32(b)))
  }

  /** `a | b` */
  function Or(a: int, b: int): int
  {
    ToInt32(BitOr(ToUint32(a), ToUint32(b)))
  }

  /** `a << k` */
  function ShiftLeft(a: int, k: int): int
  {
    ToInt32(Shl(ToUint32(a), ToUint32(k) % 32))
  }

  /** `a >> k` (sign-propagating) */
  function ShiftRight(a: int, k: int): int
  {
    Shr(ToInt32(a), ToUint32(k) % 32)
  }

  /** `a >>> k` */
  function ShiftRightUnsigned(a: int, k: int): u32
  {
    Shr(ToUint32(a), ToUint32(k) % 32)
  }

  // ---------------------------------------------------------------------
  // Conversions

  lemma ToInt32Small(x: int)
    requires -0x8000_0000 <= x < 0x8000_0000
    ensures ToInt32(x) == x
  {
  }

  lemma ToUint32Word(x: int)
    requires 0 <= x < TWO_32
    ensures ToUint32(x) == x
  {
  }

  lemma ToUint32OfInt32(x: int)
    ensures ToUint32(ToInt32(x)) == ToUint32(x)
  {
  }

  lemma ToInt32Zero(x: u32)
    ensures ToInt32(x) == 0 <==> x == 0
  {
  }

  lemma Pow2Constants()
    ensures Pow2(8) == 0x100 && Pow2(16) == 0x1_0000 && Pow2(23) == 0x80_0000
    ensures Pow2(24) == 0x100_0000 && Pow2(29) == 0x2000_0000 && Pow2(32) == TWO_32
  {
    Pow2Add(16, 7);
    Pow2Add(16, 8);
    Pow2Add(24, 5);
    Pow2Add(24, 8);
  }

  lemma Pow2Below32(k: nat)
    requires k < 32
    ensures Pow2(k) < TWO_32
  {
    Pow2Monotone(k, 31);
    Pow2Constants();
  }

  // ---------------------------------------------------------------------
  // Bit-level facts

  lemma {:induction false} LowBitsIsMod(x: nat, k: nat)
    ensures LowBits(x, k) == x % Pow2(k)
  {
    if k > 0 {
      LowBitsIsMod(x / 2, k - 1);
      ModPow2Step(x, k);
    }
  }

  lemma {:induction false} ModPow2Step(v: nat, k: nat)
    requires k >= 1
    ensures v % Pow2(k) == 2 * ((v / 2) % Pow2(k - 1)) + v % 2
  {
    var p := Pow2(k - 1);
    var q, r := (v / 2) / p, (v / 2) % p;
    assert v / 2 == q * p + r;
    Twice(q, p, Pow2(k));
    assert v == q * Pow2(k) + (2 * r + v % 2);
    DivUnique(v, Pow2(k), q, 2 * r + v % 2);
  }

  lemma {:induction false} LowBitsSmall(x: nat, k: nat)
    requires x < Pow2(k)
    ensures LowBits(x, k) == x
  {
    if k > 0 {
      LowBitsSmall(x / 2, k - 1);
    }
  }

  /** `v & (2^k - 1)` keeps the low `k` bits. */
  lemma {:induction false} BitAndLowMask(v: nat, k: nat)
    ensures BitAnd(v, Pow2(k) - 1) == LowBits(v, k)
  {
    if k > 0 && v > 0 {
      var p := Pow2(k - 1);
      assert BitAnd(v, 2 * p - 1) == 2 * BitAnd(v / 2, p - 1) + v % 2;
      BitAndLowMask(v / 2, k - 1);
    } else if k > 0 {
      LowBitsZero(k);
    }
  }

  lemma {:induction false} LowBitsZero(k: nat)
    ensures LowBits(0, k) == 0
  {
    if k > 0 {
      LowBitsZero(k - 1);
    }
  }

  /** `v & 2^k` is non-zero exactly when bit `k` of `v` is set. */
  lemma {:induction false} BitAndSingle(v: nat, k: nat)
    ensures BitAnd(v, Pow2(k)) != 0 <==> Bit(v, k)
  {
    if k == 0 {
      if v > 0 {
        assert BitAnd(v, 1) == 2 * BitAnd(v / 2, 0) + v % 2;
      }
    } else if v > 0 {
      BitAndSingle(v / 2, k - 1);
    } else {
      ShrZero(k);
    }
  }

  lemma {:induction false} ShrZero(k: nat)
    ensures Shr(0, k) == 0
  {
    if k > 0 {
      ShrZero(k - 1);
    }
  }

  /** `v & (m << k)` is `((v >> k) & m) << k`. */
  lemma {:induction false} BitAndHigh(v: nat, m: nat, k: nat)
    ensures BitAnd(v, Shl(m, k)) == Shl(BitAnd(Shr(v, k), m), k)
  {
    if k > 0 {
      if v == 0 || m == 0 {
        ShrZero(k);
        ShlZero(m, k);
        ShlZero(0, k);
        ShlZero(BitAnd(Shr(v, k), m), k);
      } else {
        var x := Shl(m, k - 1);
        ShlZero(m, k);
        assert Shl(m, k) == 2 * x;
        assert (2 * x) / 2 == x && (2 * x) % 2 == 0;
        assert BitAnd(v, 2 * x) == 2 * BitAnd(v / 2, x);
        assert Shr(v, k) == Shr(v / 2, k - 1);
        BitAndHigh(v / 2, m, k - 1);
      }
    }
  }

  lemma {:induction false} ShlZero(m: nat, k: nat)
    ensures Shl(m, k) == 0 <==> m == 0
  {
    if k > 0 {
      ShlZero(m, k - 1);
    }
  }

  lemma {:induction false} BitAndLe(a: nat, b: nat)
    ensures BitAnd(a, b) <= a
    decreases a
  {
    if a != 0 && b != 0 {
      BitAndLe(a / 2, b / 2);
    }
  }

  /** `(a << k) | b` is `(a << k) + b` when `b` fits in `k` bits. */
  lemma {:induction false} BitOrShifted(a: nat, b: nat, k: nat)
    requires b < Pow2(k)
    ensures BitOr(Shl(a, k), b) == Shl(a, k) + b
  {
    if k > 0 && b > 0 {
      ShlZero(a, k);
      BitOrShifted(a, b / 2, k - 1);
    }
  }

  lemma {:induction false} BitOrBound(a: nat, b: nat, n: nat)
    requires a < Pow2(n) && b < Pow2(n)
    ensures BitOr(a, b) < Pow2(n)
    decreases a + b
  {
    if a != 0 && b != 0 {
      BitOrBound(a / 2, b / 2, n - 1);
    }
  }

  /** `x | 2^k` has bit `k` set. */
  lemma {:induction false} BitOrSetsBit(x: nat, k: nat)
    ensures Bit(BitOr(x, Pow2(k)), k)
  {
    if k == 0 {
      if x > 0 {
        assert BitOr(x / 2, 0) == x / 2;
      }
    } else if x == 0 {
      ShrPow2(k);
    } else {
      BitOrSetsBit(x / 2, k - 1);
      var y := BitOr(x / 2, Pow2(k - 1));
      assert BitOr(x, Pow2(k)) == 2 * y + x % 2;
      assert (2 * y + x % 2) / 2 == y;
    }
  }

  lemma {:induction false} ShrPow2(k: nat)
    ensures Shr(Pow2(k), k) == 1
  {
    if k > 0 {
      assert Pow2(k) / 2 == Pow2(k - 1);
      ShrPow2(k - 1);
    }
  }

  // ---------------------------------------------------------------------
  // The operator applications the model uses

  lemma AndWords(a: u32, b: u32)
    ensures And(a, b) == ToInt32(BitAnd(a, b))
  {
    assert ToUint32(a) == a;
    assert ToUint32(b) == b;
  }

  lemma OrWords(a: u32, b: u32)
    ensures Or(a, b) == ToInt32(BitOr(a, b))
  {
    assert ToUint32(a) == a;
    assert ToUint32(b) == b;
  }

  lemma {:induction false} ShlOnePow2(k: nat)
    ensures Shl(1, k) == Pow2(k)
  {
    if k > 0 {
      ShlOnePow2(k - 1);
    }
  }

  /** `1 << k` for `k < 32` is `2^k` as an unsigned word. */
  lemma ShiftLeftOne(k: nat)
    requires k < 32
    ensures ToUint32(ShiftLeft(1, k)) == Pow2(k)
  {
    var p := Pow2(k);
    ShiftLeftWord(1, k);
    ShlOnePow2(k);
    Pow2Below32(k);
    ToUint32OfInt32(p);
    ToUint32Word(p);
  }

  lemma ShiftLeftWord(x: u32, k: nat)
    requires k < 32
    ensures ShiftLeft(x, k) == ToInt32(Shl(x, k))
  {
    assert ToUint32(x) == x;
    assert ToUint32(k) % 32 == k;
  }

  /** `v & (1 << k)` is non-zero exactly when bit `k` of the unsigned image of `v` is set. */
  lemma AndBit(v: int, k: nat)
    requires k < 32
    ensures And(v, ShiftLeft(1, k)) != 0 <==> Bit(ToUint32(v), k)
  {
    var u := ToUint32(v);
    var m := ShiftLeft(1, k);
    ShiftLeftOne(k);
    assert And(v, m) == ToInt32(BitAnd(u, Pow2(k)));
    BitAndSingle(u, k);
    BitAndLe(u, Pow2(k));
    ToInt32Zero(BitAnd(u, Pow2(k)));
  }

  /** `v & 0x800000` is non-zero exactly when bit 23 of the unsigned image of `v` is set. */
  lemma AndSignBit(v: int)
    ensures And(v, 0x80_0000) != 0 <==> Bit(ToUint32(v), 23)
  {
    var u := ToUint32(v);
    Pow2Constants();
    assert ToUint32(0x80_0000) == Pow2(23);
    assert And(v, 0x80_0000) == ToInt32(BitAnd(u, Pow2(23)));
    BitAndSingle(u, 23);
    BitAndLe(u, Pow2(23));
    ToInt32Zero(BitAnd(u, Pow2(23)));
  }

  /** `(v & 0xe0000000) >>> 0` keeps the top three bits of the unsigned image of `v`. */
  lemma AndTopMask(v: int)
    ensures ShiftRightUnsigned(And(v, 0xe000_0000), 0) == Shl(Shr(ToUint32(v), 29), 29)
  {
    AndImage(v, 0xe000_0000);
    TopBits(ToUint32(v));
  }

  /** `(v & mask) >>> 0` is the bitwise AND of the unsigned images. */
  lemma AndImage(v: int, mask: u32)
    ensures ShiftRightUnsigned(And(v, mask), 0) == BitAnd(ToUint32(v), mask)
  {
    var a := BitAnd(ToUint32(v), mask);
    assert ToUint32(mask) == mask;
    BitAndLe(ToUint32(v), mask);
    UnsignedImage(And(v, mask));
    ToUint32OfInt32(a);
  }

  /** The three bits above bit 29 of a word, as `v & 0xe0000000` computes them. */
  lemma TopBits(u: u32)
    ensures BitAnd(u, 0xe000_0000) == Shl(Shr(u, 29), 29) < TWO_32
  {
    var top := Shr(u, 29);
    TopMaskShifted();
    BitAndHigh(u, 7, 29);
    TopOfWord(u);
    SmallMask(top);
  }

  lemma TopMaskShifted()
    ensures Shl(7, 29) == 0xe000_0000
  {
    Pow2Constants();
    ShlIsMul(7, 29);
  }

  /** The top three bits of a word, moved down and back up, stay below 2^32. */
  lemma TopOfWord(u: u32)
    ensures Shr(u, 29) < 8 && Shl(Shr(u, 29), 29) < TWO_32
  {
    Pow2Constants();
    ShrIsDiv(u, 29);
    ShlIsMul(Shr(u, 29), 29);
  }

  lemma SmallMask(t: nat)
    requires t < 8
    ensures BitAnd(t, 7) == t
  {
    assert Pow2(3) - 1 == 7;
    BitAndLowMask(t, 3);
    LowBitsSmall(t, 3);
  }

  /** `v & 0x7fffff` for an unsigned 32-bit `v` is its low 23 bits. */
  lemma AndLow23(v: u32)
    ensures And(v, 0x7f_ffff) == v % 0x80_0000
  {
    AndWords(v, 0x7f_ffff);
    Low23(v);
    ToInt32Small(v % 0x80_0000);
  }

  lemma Low23(v: u32)
    ensures BitAnd(v, 0x7f_ffff) == v % 0x80_0000
  {
    Pow2Constants();
    BitAndLowMask(v, 23);
    LowBitsIsMod(v, 23);
  }

  /** `v >>> k` for an unsigned 32-bit `v` and a literal `k < 32` is `Shr(v, k)`. */
  lemma ShiftRightUnsignedWord(v: u32, k: nat)
    requires k < 32
    ensures ShiftRightUnsigned(v, k) == Shr(v, k)
  {
    assert ToUint32(v) == v;
    assert ToUint32(k) % 32 == k;
  }

  /** `(v >>> 23) & 1` is bit 23 of an unsigned 32-bit `v`. */
  lemma SignBitOf(v: u32)
    ensures And(ShiftRightUnsigned(v, 23), 1) == v / 0x80_0000 % 2
  {
    ShiftRightUnsignedWord(v, 23);
    var t := Shr(v, 23);
    AndWords(t, 1);
    LowBit(t);
    Pow2Constants();
    ShrIsDiv(v, 23);
    ToInt32Small(t % 2);
  }

  lemma LowBit(t: nat)
    ensures BitAnd(t, 1) == t % 2
  {
    if t > 0 {
      assert BitAnd(t, 1) == 2 * BitAnd(t / 2, 0) + t % 2;
    }
  }

  /** `(e << 24) | m`, for an exponent `e < 128` and a mantissa `m < 2^24`,
      is `e * 2^24 + m`. */
  lemma OrExponent(e: nat, m: nat)
    requires e < 0x80 && m < 0x100_0000
    ensures Or(ShiftLeft(e, 24), m) == e * 0x100_0000 + m
  {
    var h := e * 0x100_0000;
    ShiftLeftExponent(e);
    OrWords(h, m);
    assert BitOr(h, m) == h + m by {
      ShiftedExponent(e);
      BitOrShifted(e, m, 24);
    }
    ToInt32Small(h + m);
  }

  /** The unsigned image of `e << 24`, for any exponent: only the low byte
      of `e` survives, in the top byte of the word. */
  lemma ShiftLeftWrap(e: nat)
    ensures ToUint32(ShiftLeft(e, 24)) == (e % 0x100) * 0x100_0000
  {
    var u := ToUint32(e);
    assert ToUint32(24) % 32 == 24;
    ToUint32OfInt32(Shl(u, 24));
    ShiftedExponent(u);
    LowByteOfWord(e, u);
    var w: int := u;
    var t := w / 0x100;
    var r := w % 0x100;
    assert w == t * 0x100 + r;
    DivUnique(w * 0x100_0000, 0x1_0000_0000, t, r * 0x100_0000);
  }

  /** The shift count JavaScript takes from a number: its low five bits. */
  lemma ShiftCountOfWord(x: int)
    ensures ToUint32(x) % 32 == x % 32
  {
    var u: int := ToUint32(x);
    var q := x / 0x1_0000_0000;
    var t := u / 32;
    var r := u % 32;
    assert x == q * 0x1_0000_0000 + u;
    assert u == t * 32 + r;
    DivUnique(x, 32, q * 0x800_0000 + t, r);
  }

  /** Reducing modulo 2^32 keeps the low byte. */
  lemma LowByteOfWord(e: nat, u: u32)
    requires u == ToUint32(e)
    ensures u % 0x100 == e % 0x100
  {
    var w: int := u;
    var q := e / 0x1_0000_0000;
    var t := w / 0x100;
    var r := w % 0x100;
    assert e == q * 0x1_0000_0000 + w;
    assert w == t * 0x100 + r;
    assert e == (q * 0x100_0000 + t) * 0x100 + r;
    DivUnique(e, 0x100, q * 0x100_0000 + t, r);
  }

  /** The unsigned image of `(e << 24) | m`, for any exponent and a mantissa
      below 2^24: the low byte of `e` above the mantissa. */
  lemma OrExponentWrap(e: nat, m: nat)
    requires m < 0x100_0000
    ensures ToUint32(Or(ShiftLeft(e, 24), m)) == (e % 0x100) * 0x100_0000 + m
  {
    var low := e % 0x100;
    OrImage(ShiftLeft(e, 24), m);
    ShiftLeftWrap(e);
    ShiftedExponent(low);
    BitOrShifted(low, m, 24);
  }

  /** `e << 24` for `e < 128` is `e * 2^24`. */
  lemma ShiftLeftExponent(e: nat)
    requires e < 0x80
    ensures ShiftLeft(e, 24) == e * 0x100_0000
  {
    assert ToUint32(e) == e;
    assert ToUint32(24) % 32 == 24;
    ShiftedExponent(e);
    ToInt32Small(e * 0x100_0000);
  }

  lemma ShiftedExponent(e: nat)
    ensures Shl(e, 24) == e * 0x100_0000 && Pow2(24) == 0x100_0000
  {
    Pow2Constants();
    ShlIsMul(e, 24);
  }

  /** `x | 0x800000` has bit 23 set. */
  lemma OrSetsSignBit(x: int)
    ensures Bit(ToUint32(Or(x, 0x80_0000)), 23)
  {
    OrImage(x, 0x80_0000);
    SignBitSet(ToUint32(x));
  }

  /** The unsigned image of `x | b` is the bitwise OR of the unsigned images. */
  lemma OrImage(x: int, b: u32)
    ensures ToUint32(Or(x, b)) == BitOr(ToUint32(x), b)
  {
    var o := BitOr(ToUint32(x), b);
    assert ToUint32(b) == b;
    Pow2Constants();
    BitOrBound(ToUint32(x), b, 32);
    ToUint32OfInt32(o);
  }

  lemma SignBitSet(u: u32)
    ensures Bit(BitOr(u, 0x80_0000), 23) && BitOr(u, 0x80_0000) < TWO_32
  {
    Pow2Constants();
    BitOrSetsBit(u, 23);
    BitOrBound(u, Pow2(23), 32);
  }

  /** `x | 2^k` leaves `x` alone when bit `k` is already set, and adds `2^k`
      otherwise. */
  lemma {:induction false} BitOrPow2(x: nat, k: nat)
    ensures BitOr(x, Pow2(k)) == if Bit(x, k) then x else x + Pow2(k)
  {
    if k == 0 {
      if x > 0 {
        assert BitOr(x / 2, 0) == x / 2;
      }
    } else if x == 0 {
      ShrZero(k);
    } else {
      BitOrPow2(x / 2, k - 1);
      assert BitOr(x, Pow2(k)) == 2 * BitOr(x / 2, Pow2(k - 1)) + x % 2;
    }
  }

  lemma {:induction false} BitOrComm(a: nat, b: nat)
    ensures BitOr(a, b) == BitOr(b, a)
    decreases a + b
  {
    if a != 0 && b != 0 {
      BitOrComm(a / 2, b / 2);
    }
  }

  /** `x | 0x800000 >>> 0` on a word: sets bit 23 if it was clear. */
  lemma OrSignBitWord(x: u32)
    ensures ToUint32(Or(x, 0x80_0000)) == if Bit(x, 23) then x else x + 0x80_0000
  {
    OrImage(x, 0x80_0000);
    assert ToUint32(x) == x;
    SetSignBit(x);
  }

  lemma SetSignBit(x: u32)
    ensures BitOr(x, 0x80_0000) == (if Bit(x, 23) then x else x + 0x80_0000) < TWO_32
  {
    Pow2Constants();
    BitOrPow2(x, 23);
    if !Bit(x, 23) {
      ShrIsDiv(x, 23);
      var q := x / 0x80_0000;
      assert q % 2 == 0 && q < 0x200;
      assert x == q * 0x80_0000 + x % 0x80_0000;
    }
  }

  /** Bit `k` is the parity of the quotient by `2^k`. */
  lemma BitOfWord(x: nat, k: nat)
    ensures Bit(x, k) <==> x / Pow2(k) % 2 == 1
  {
    ShrIsDiv(x, k);
  }

  /** Bit `k` of `q * 2^k + r`, for `r < 2^k`, is the parity of `q`. */
  lemma BitOfSplit(x: nat, k: nat, p: nat, q: nat, r: nat)
    requires p == Pow2(k) && r < p && x == q * p + r
    ensures Bit(x, k) <==> q % 2 == 1
  {
    ShrIsDiv(x, k);
    DivUnique(x, p, q, r);
  }

  /** `x >>> 0` is the unsigned image of `x`. */
  lemma UnsignedImage(x: int)
    ensures ShiftRightUnsigned(x, 0) == ToUint32(x)
  {
    assert ToUint32(0) % 32 == 0;
  }
}
