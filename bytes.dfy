/** Byte strings, unsigned 32-bit words, powers of two and little-endian
    integers: the number and byte-order conventions shared by the rest of the
    model (buffers, 32-bit header fields, 256-bit targets and chainwork). */
module Bytes {

  /** One byte of a Node.js Buffer. */
  type byte = x: int | 0 <= x < 0x100

  /** A JavaScript Number that holds an unsigned 32-bit integer. */
  type u32 = x: int | 0 <= x < 0x1_0000_0000

  /** A 32-byte buffer: a double-SHA256 digest, a block hash or a target. */
  type Hash = s: seq<byte> | |s| == 32 witness seq(32, _ => 0)

  datatype Option<+T> = None | Some(value: T)

  function Pow2(n: nat): (r: nat)
    ensures r >= 1
  {
    if n == 0 then 1 else 2 * Pow2(n - 1)
  }

  lemma {:induction false} Pow2Add(a: nat, b: nat)
    ensures Pow2(a + b) == Pow2(a) * Pow2(b)
  {
    if a > 0 {
      Pow2Add(a - 1, b);
      assert Pow2(a + b) == 2 * Pow2(a - 1 + b);
    }
  }

  lemma {:induction false} Pow2Monotone(a: nat, b: nat)
    requires a <= b
    ensures Pow2(a) <= Pow2(b)
  {
    if a < b {
      Pow2Monotone(a, b - 1);
    }
  }

  lemma MulNonNeg(a: int, b: int)
    requires a >= 0 && b >= 0
    ensures a * b >= 0
  {
  }

  /** Multiplying by a non-negative factor keeps an inequality. */
  lemma MulMono(a: int, b: int, p: int)
    ensures p >= 0 && a <= b ==> a * p <= b * p
  {
    if p >= 0 && a <= b {
      MulNonNeg(b - a, p);
      assert (b - a) * p == b * p - a * p;
    }
  }

  lemma DivNonNeg(n: nat, d: int)
    requires d > 0
    ensures n / d >= 0
  {
    var q := n / d;
    assert n == q * d + n % d;
    MulMono(q + 1, 0, d);
    assert (q + 1) * d == q * d + d;
  }

  /** Euclidean division is determined by quotient and remainder. */
  lemma DivUnique(n: int, d: int, q: int, r: int)
    requires d > 0 && 0 <= r < d && n == q * d + r
    ensures n / d == q && n % d == r
  {
    var q', r' := n / d, n % d;
    assert n == q' * d + r';
    MulMono(q' + 1, q, d);
    MulMono(q + 1, q', d);
    assert (q' + 1) * d == q' * d + d;
    assert (q + 1) * d == q * d + d;
  }

  lemma MulDivCancel(x: int, d: int)
    requires d > 0
    ensures x * d / d == x && x * d % d == 0
  {
    DivUnique(x * d, d, x, 0);
  }

  lemma DivPow2Twice(n: nat, a: nat, b: nat)
    ensures n / Pow2(a) / Pow2(b) == n / Pow2(a + b)
  {
    DivDivInt(n, Pow2(a), Pow2(b));
    Pow2Add(a, b);
  }

  /** `x` shifted left by `k` bits, on unbounded non-negative integers
      (bn.js `ushln`): doubling `k` times. */
  function Shl(x: nat, k: nat): (r: nat)
    ensures x <= r
  {
    if k == 0 then x else 2 * Shl(x, k - 1)
  }

  /** `x` shifted right by `k` bits, on unbounded integers (bn.js `ushrn` on a
      magnitude, and JavaScript `>>` and `>>>`): halving, rounding down, `k` times. */
  function Shr(x: int, k: nat): (r: int)
    decreases k
    ensures 0 <= x ==> 0 <= r <= x
    ensures x < 0 ==> x <= r < 0
  {
    if k == 0 then x else Shr(x / 2, k - 1)
  }

  lemma Twice(x: int, p: int, q: int)
    requires q == 2 * p
    ensures x * q == 2 * (x * p)
  {
  }

  lemma {:induction false} ShlIsMul(x: nat, k: nat)
    ensures Shl(x, k) == x * Pow2(k)
  {
    if k > 0 {
      ShlIsMul(x, k - 1);
      Twice(x, Pow2(k - 1), Pow2(k));
    }
  }

  lemma {:induction false} ShrIsDiv(x: int, k: nat)
    decreases k
    ensures Shr(x, k) == x / Pow2(k)
  {
    if k > 0 {
      ShrIsDiv(x / 2, k - 1);
      DivDivInt(x, 2, Pow2(k - 1));
    }
  }

  lemma DivDivInt(n: int, a: nat, b: nat)
    requires a > 0 && b > 0
    ensures n / a / b == n / (a * b)
  {
    var q, r := n / a, n % a;
    var q2, r2 := q / b, q % b;
    assert n == q * a + r;
    assert q == q2 * b + r2;
    var rest := r2 * a + r;
    assert q * a == q2 * (a * b) + r2 * a by {
      assert q * a == (q2 * b + r2) * a;
    }
    assert rest < a * b by {
      MulNonNeg(b - 1 - r2, a);
      assert (b - 1 - r2) * a == (b - 1) * a - r2 * a;
      assert (b - 1) * a == a * b - a;
    }
    MulNonNeg(r2, a);
    DivUnique(n, a * b, q2, rest);
  }

  lemma Pow2Byte(k: nat)
    ensures Pow2(8 * k + 8) == 0x100 * Pow2(8 * k)
  {
    Pow2Add(8 * k, 8);
    assert Pow2(8) == 0x100;
  }

  /** The number of bytes in the magnitude of a big number (bn.js `byteLength`). */
  function ByteLength(n: nat): nat
  {
    if n == 0 then 0 else 1 + ByteLength(n / 0x100)
  }

  /** The number of bits in the magnitude of a big number (bn.js `bitLength`). */
  function BitLength(n: nat): nat
  {
    if n == 0 then 0 else 1 + BitLength(n / 2)
  }

  lemma {:induction false} ByteLengthBounds(n: nat)
    ensures n < Pow2(8 * ByteLength(n))
    ensures n > 0 ==> ByteLength(n) >= 1 && Pow2(8 * (ByteLength(n) - 1)) <= n
  {
    if n > 0 {
      var k := ByteLength(n / 0x100);
      ByteLengthBounds(n / 0x100);
      Pow2Byte(k);
      if n / 0x100 > 0 {
        Pow2Byte(k - 1);
      }
    }
  }

  lemma {:induction false} ByteLengthOf(n: nat, e: nat)
    requires e >= 1 && Pow2(8 * (e - 1)) <= n < Pow2(8 * e)
    ensures ByteLength(n) == e
  {
    Pow2Byte(e - 1);
    if e > 1 {
      Pow2Byte(e - 2);
      ByteLengthOf(n / 0x100, e - 1);
    } else {
      assert Pow2(0) == 1 && Pow2(8) == 0x100;
    }
  }

  /** A number needs more than `k` bits exactly when it is at least `2^k`. */
  lemma {:induction false} BitLengthAbove(n: nat, k: nat)
    ensures BitLength(n) > k <==> n >= Pow2(k)
  {
    if n > 0 && k > 0 {
      BitLengthAbove(n / 2, k - 1);
    }
  }

  /** The value of a buffer read as an unsigned little-endian integer
      (`new BN(buf, 'le')`): the last byte is the most significant. */
  function LeValue(s: seq<byte>): nat
  {
    if s == [] then 0 else s[0] + 0x100 * LeValue(s[1..])
  }

  /** The `len` low-order bytes of `n`, least significant first
      (`n.toArrayLike(Buffer, 'le', len)` when `n < 2^(8*len)`). */
  function LeBytes(n: nat, len: nat): (r: seq<byte>)
    ensures |r| == len
  {
    if len == 0 then [] else [n % 0x100] + LeBytes(n / 0x100, len - 1)
  }

  lemma {:induction false} LeValueBound(s: seq<byte>)
    ensures LeValue(s) < Pow2(8 * |s|)
  {
    if s != [] {
      LeValueBound(s[1..]);
      Pow2Add(8, 8 * (|s| - 1));
      assert Pow2(8) == 0x100;
    }
  }

  lemma {:induction false} LeBytesValue(n: nat, len: nat)
    requires n < Pow2(8 * len)
    ensures LeValue(LeBytes(n, len)) == n
  {
    if len == 0 {
    } else {
      Pow2Add(8, 8 * (len - 1));
      assert Pow2(8) == 0x100;
      var r := LeBytes(n, len);
      assert r[1..] == LeBytes(n / 0x100, len - 1);
      LeBytesValue(n / 0x100, len - 1);
    }
  }

  lemma {:induction false} LeValueBytes(s: seq<byte>)
    ensures LeBytes(LeValue(s), |s|) == s
  {
    if s != [] {
      LeValueBytes(s[1..]);
      var v := LeValue(s);
      DivUnique(v, 0x100, LeValue(s[1..]), s[0]);
    }
  }

  lemma {:induction false} LeValueSplit(s: seq<byte>, i: nat)
    requires i <= |s|
    ensures LeValue(s) == LeValue(s[..i]) + Pow2(8 * i) * LeValue(s[i..])
  {
    if i > 0 {
      var t := s[1..];
      LeValueSplit(t, i - 1);
      assert t[i - 1..] == s[i..];
      assert t[..i - 1] == s[..i][1..];
      Pow2Add(8, 8 * (i - 1));
      assert Pow2(8) == 0x100;
      ShiftByte(s[0], LeValue(t[..i - 1]), Pow2(8 * (i - 1)), LeValue(s[i..]), Pow2(8 * i));
    }
  }

  lemma ShiftByte(x: int, a: int, p: int, b: int, q: int)
    requires q == 0x100 * p
    ensures x + 0x100 * (a + p * b) == (x + 0x100 * a) + q * b
  {
  }

  /** The bytes after a prefix are the suffix. */
  lemma AppendTail(a: seq<byte>, b: seq<byte>)
    ensures (a + b)[|a|..|a| + |b|] == b
  {
  }

  /** `buf.writeUInt32LE(x)` / `bw.writeU32(x)`: four bytes, least significant first. */
  function U32Le(x: u32): seq<byte>
  {
    [x % 0x100, x / 0x100 % 0x100, x / 0x1_0000 % 0x100, x / 0x100_0000]
  }

  /** `br.readU32()`: the little-endian word in the first four bytes. */
  function ReadU32Le(s: seq<byte>): u32
    requires |s| >= 4
  {
    s[0] as int + 0x100 * s[1] as int + 0x1_0000 * s[2] as int + 0x100_0000 * s[3] as int
  }

  /** A word is its four bytes, least significant first. */
  lemma U32Digits(x: u32)
    ensures var s := U32Le(x);
      x == s[0] as int + 0x100 * (s[1] as int + 0x100 * (s[2] as int + 0x100 * s[3] as int))
  {
    var r1 := x / 0x100;
    var r2 := r1 / 0x100;
    DivDivInt(x, 0x100, 0x100);
    DivDivInt(x, 0x1_0000, 0x100);
    assert x / 0x1_0000 == r2;
    assert x / 0x100_0000 == r2 / 0x100;
  }

  lemma U32RoundTrip(x: u32)
    ensures |U32Le(x)| == 4 && ReadU32Le(U32Le(x)) == x
  {
    U32Digits(x);
  }

  /** Four bytes read as a word and written back are the same four bytes. */
  lemma U32OfBytes(s: seq<byte>)
    requires |s| == 4
    ensures U32Le(ReadU32Le(s)) == s
  {
    var x := ReadU32Le(s);
    var z := s[2] as int + 0x100 * s[3] as int;
    var y := s[1] as int + 0x100 * z;
    assert x == s[0] as int + 0x100 * y;
    DivUnique(x, 0x100, y, s[0]);
    DivUnique(y, 0x100, z, s[1]);
    DivUnique(z, 0x100, s[3], s[2]);
    DivDivInt(x, 0x100, 0x100);
    DivDivInt(x, 0x1_0000, 0x100);
  }

  lemma U32LeValue(x: u32)
    ensures LeValue(U32Le(x)) == x
  {
    var s := U32Le(x);
    U32Digits(x);
    assert LeValue(s[3..]) == s[3] by {
      assert s[3..][1..] == [];
    }
    assert LeValue(s[2..]) == s[2] as int + 0x100 * s[3] as int by {
      assert s[2..][1..] == s[3..];
    }
    assert LeValue(s[1..]) == s[1] + 0x100 * LeValue(s[2..]) by {
      assert s[1..][1..] == s[2..];
    }
  }

  /** The three-way comparison of two integers (-1, 0 or 1). */
  function Compare(x: int, y: int): int
  {
    if x < y then -1 else if x > y then 1 else 0
  }
}
