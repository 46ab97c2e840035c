/** The nonce search over a serialized block header: the header's nonce
    field (bytes 76..79) is rewritten in place for each nonce of a range until
    the header's hash, read as a little-endian number, is at most the target. */
module Mine {
  import opened Bytes
  import opened Js
  import Bufio

  // ---------------------------------------------------------------------
  // rcmp

  /** A buffer's value split at byte `i`: the bytes below `i`, and the
      bytes from `i` up, which are byte `i` and the bytes above it. */
  lemma ValueAt(a: seq<byte>, i: nat)
    requires i < |a|
    ensures LeValue(a[..i]) < Pow2(8 * i)
    ensures LeValue(a) == LeValue(a[..i]) + Pow2(8 * i) * LeValue(a[i..])
    ensures LeValue(a[i..]) == a[i] + 0x100 * LeValue(a[i + 1..])
  {
    LeValueSplit(a, i);
    LeValueBound(a[..i]);
    assert a[i..][1..] == a[i + 1..];
  }

  lemma DigitLess(lo1: nat, lo2: nat, p: nat, x: nat, y: nat)
    requires lo1 < p && lo2 < p && x < y
    ensures lo1 + p * x < lo2 + p * y
  {
    MulMono(x + 1, y, p);
  }

  /** Two equal-length buffers whose bytes above `i` agree compare, as
      little-endian numbers, as their bytes at `i` do. */
  lemma CompareAt(a: seq<byte>, b: seq<byte>, i: nat)
    requires |a| == |b| && i < |a| && a[i + 1..] == b[i + 1..]
    ensures a[i] < b[i] ==> LeValue(a) < LeValue(b)
    ensures a[i] > b[i] ==> LeValue(a) > LeValue(b)
  {
    ValueAt(a, i);
    ValueAt(b, i);
    var p := Pow2(8 * i);
    if a[i] < b[i] {
      DigitLess(LeValue(a[..i]), LeValue(b[..i]), p, LeValue(a[i..]), LeValue(b[i..]));
    } else if a[i] > b[i] {
      DigitLess(LeValue(b[..i]), LeValue(a[..i]), p, LeValue(b[i..]), LeValue(a[i..]));
    }
  }

  /** `rcmp(a, b)`: compares two buffers of equal length from the last byte
      down, that is, as little-endian numbers. */
  method Rcmp(a: seq<byte>, b: seq<byte>) returns (r: int)
    requires |a| == |b|
    ensures r == Compare(LeValue(a), LeValue(b))
  {
    var i := |a|;
    while i > 0
      invariant 0 <= i <= |a|
      invariant a[i..] == b[i..]
    {
      i := i - 1;
      CompareAt(a, b, i);
      if a[i] < b[i] {
        return -1;
      }
      if a[i] > b[i] {
        return 1;
      }
      assert a[i..] == [a[i]] + a[i + 1..] && b[i..] == [b[i]] + b[i + 1..];
    }
    assert a == a[0..] && b == b[0..];
    return 0;
  }

  // ---------------------------------------------------------------------
  // The specification of the search

  /** The header with `nonce` in its nonce field, as
      `data.writeUInt32LE(nonce, 76, true)` leaves it. */
  function WithNonce(header: seq<byte>, nonce: int): (r: seq<byte>)
    requires |header| >= 80
    ensures |r| == |header|
  {
    header[..76] + U32Le(ToUint32(nonce)) + header[80..]
  }

  /** Writing the nonce touches bytes 76..79 only, and they then hold the
      nonce little-endian. */
  lemma WithNonceFrame(header: seq<byte>, nonce: int)
    requires |header| >= 80
    ensures var r := WithNonce(header, nonce);
      r[..76] == header[..76] && r[76..80] == U32Le(ToUint32(nonce)) && r[80..] == header[80..]
  {
    var r := WithNonce(header, nonce);
    assert r[..76] == header[..76];
    assert r[76..80] == U32Le(ToUint32(nonce));
  }

  /** A nonce meets the target when the hash of the header carrying it,
      compared with `rcmp`, is not above the target. */
  predicate Hit(header: seq<byte>, target: seq<byte>, nonce: int, hash256: seq<byte> -> Hash)
    requires |header| >= 80
  {
    Compare(LeValue(hash256(WithNonce(header, nonce))), LeValue(target)) <= 0
  }

  /** The first nonce in `lo..hi` that meets the target, or -1. */
  function FirstHit(header: seq<byte>, target: seq<byte>, lo: int, hi: int, hash256: seq<byte> -> Hash): (r: int)
    requires |header| >= 80
    ensures r == -1 || lo <= r <= hi
    decreases hi - lo
  {
    if lo > hi then -1
    else if Hit(header, target, lo, hash256) then lo
    else FirstHit(header, target, lo + 1, hi, hash256)
  }

  /** `FirstHit` is the least nonce of the range that meets the target, and
      -1 exactly when no nonce of a non-negative range does. */
  lemma {:induction false} FirstHitLeast(header: seq<byte>, target: seq<byte>, lo: int, hi: int, hash256: seq<byte> -> Hash)
    requires |header| >= 80 && 0 <= lo
    ensures var r := FirstHit(header, target, lo, hi, hash256);
      (r == -1 <==> forall n :: lo <= n <= hi ==> !Hit(header, target, n, hash256)) &&
      (r != -1 ==> lo <= r <= hi && Hit(header, target, r, hash256) &&
                   forall n :: lo <= n < r ==> !Hit(header, target, n, hash256))
    decreases hi - lo
  {
    if lo <= hi && !Hit(header, target, lo, hash256) {
      FirstHitLeast(header, target, lo + 1, hi, hash256);
    }
  }

  /** Searching `lo..hi` is searching `lo..mid`, then (if that fails)
      `mid..hi`: a shared endpoint costs one extra hash and nothing else. */
  lemma {:induction false} FirstHitSplit(header: seq<byte>, target: seq<byte>, lo: int, mid: int, hi: int, hash256: seq<byte> -> Hash)
    requires |header| >= 80 && 0 <= lo <= mid <= hi
    ensures FirstHit(header, target, lo, hi, hash256) ==
      if FirstHit(header, target, lo, mid, hash256) != -1 then FirstHit(header, target, lo, mid, hash256)
      else FirstHit(header, target, mid, hi, hash256)
    decreases mid - lo
  {
    if lo < mid && !Hit(header, target, lo, hash256) {
      FirstHitSplit(header, target, lo + 1, mid, hi, hash256);
    }
  }

  /** The search reads only bytes outside the nonce field. */
  lemma {:induction false} FirstHitFrame(h1: seq<byte>, h2: seq<byte>, target: seq<byte>, lo: int, hi: int, hash256: seq<byte> -> Hash)
    requires |h1| == |h2| >= 80 && h1[..76] == h2[..76] && h1[80..] == h2[80..]
    ensures FirstHit(h1, target, lo, hi, hash256) == FirstHit(h2, target, lo, hi, hash256)
    decreases hi - lo
  {
    if lo <= hi {
      assert WithNonce(h1, lo) == WithNonce(h2, lo);
      FirstHitFrame(h1, h2, target, lo + 1, hi, hash256);
    }
  }

  /** One step of the search, given the comparison `rcmp` returned for
      the header carrying `nonce`. */
  lemma FirstHitAdvance(header: seq<byte>, target: seq<byte>, nonce: int, max: int, hash256: seq<byte> -> Hash, data: seq<byte>, c: int)
    requires |header| >= 80 && nonce <= max && data == WithNonce(header, nonce)
    requires c == Compare(LeValue(hash256(data)), LeValue(target))
    ensures c <= 0 ==> FirstHit(header, target, nonce, max, hash256) == nonce
    ensures c > 0 ==> FirstHit(header, target, nonce, max, hash256) == FirstHit(header, target, nonce + 1, max, hash256)
  {
  }

  // ---------------------------------------------------------------------
  // mine

  /** `data.writeUInt32LE(nonce, 76, true)` */
  method WriteNonce(data: array<byte>, nonce: int)
    requires data.Length >= 80
    modifies data
    ensures data[..] == WithNonce(old(data[..]), nonce)
  {
    Bufio.WriteUInt32LE(data, nonce, 76);
  }

  /** Writing the nonce field twice leaves the second nonce. */
  lemma WithNonceTwice(header: seq<byte>, a: int, b: int)
    requires |header| >= 80
    ensures WithNonce(WithNonce(header, a), b) == WithNonce(header, b)
  {
    var h := WithNonce(header, a);
    assert h[..76] == header[..76] && h[80..] == header[80..];
  }

  /** The nonce the field holds when `mine` returns: the nonce found, else one
      past the range (or `min`, when the range is empty). */
  function LastNonce(found: int, min: int, max: int): int
  {
    if found != -1 then found else if min <= max then max + 1 else min
  }

  /** One pass of the loop of `mine`: hashes the header carrying `nonce`
      and, when it misses the target, writes the next nonce. */
  method Attempt(data: array<byte>, ghost header: seq<byte>, target: seq<byte>, nonce: int, max: int, hash256: seq<byte> -> Hash)
    returns (hit: bool)
    requires |header| >= 80 && data[..] == WithNonce(header, nonce)
    requires nonce <= max && |target| == 32
    modifies data
    ensures hit ==> FirstHit(header, target, nonce, max, hash256) == nonce && data[..] == old(data[..])
    ensures !hit ==> FirstHit(header, target, nonce, max, hash256) == FirstHit(header, target, nonce + 1, max, hash256)
    ensures !hit ==> data[..] == WithNonce(header, nonce + 1)
  {
    var c := Rcmp(hash256(data[..]), target);
    FirstHitAdvance(header, target, nonce, max, hash256, data[..], c);
    if c <= 0 {
      return true;
    }
    WriteNonce(data, nonce + 1);
    WithNonceTwice(header, nonce, nonce + 1);
    return false;
  }

  /** `mine(data, target, min, max)`: the first nonce of `min..max` whose
      header meets the target, or -1; only the nonce field of `data` is
      written, and it is left holding the last nonce tried (plus one, on
      failure). */
  method Mine(data: array<byte>, target: seq<byte>, min: int, max: int, hash256: seq<byte> -> Hash)
    returns (found: int)
    requires data.Length >= 80 && 0 <= min
    requires min <= max ==> |target| == 32
    modifies data
    ensures found == FirstHit(old(data[..]), target, min, max, hash256)
    ensures data[..] == WithNonce(old(data[..]), LastNonce(found, min, max))
  {
    ghost var header := data[..];
    var nonce := min;
    WriteNonce(data, nonce);
    while nonce <= max
      invariant min <= nonce && (min <= max ==> nonce <= max + 1) && (min > max ==> nonce == min)
      invariant data[..] == WithNonce(header, nonce)
      invariant FirstHit(header, target, min, max, hash256) == FirstHit(header, target, nonce, max, hash256)
      decreases max - nonce
    {
      var hit := Attempt(data, header, target, nonce, max, hash256);
      if hit {
        return nonce;
      }
      nonce := nonce + 1;
    }
    return -1;
  }
}
