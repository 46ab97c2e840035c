/** The buffer primitives the serializers are written against: a
    fixed-size writer and a bounds-checked reader with a cursor (the `bufio`
    library), and Node's in-place `buf.writeUInt32LE(value, offset, true)`. */
module Bufio {
  import opened Bytes
  import opened Js

  /** `bio.write(size)`: a buffer of `size` bytes, filled from the front. The
      initial contents are not specified (the buffer is allocated unsafely). */
  class BufferWriter {
    var data: seq<byte>
    var offset: nat

    constructor(size: nat)
      ensures |data| == size && offset == 0
    {
      data := seq(size, _ => 0);
      offset := 0;
    }

    /** `writeBytes(bytes)`: copies `bytes` at the cursor and moves past them. */
    method WriteBytes(bytes: seq<byte>)
      requires offset + |bytes| <= |data|
      modifies this
      ensures |data| == old(|data|) && offset == old(offset) + |bytes|
      ensures data[..offset] == old(data[..offset]) + bytes
      ensures data[offset..] == old(data)[offset..]
    {
      data := data[..offset] + bytes + data[offset + |bytes|..];
      offset := offset + |bytes|;
    }

    /** `writeU32(x)` */
    method WriteU32(x: u32)
      requires offset + 4 <= |data|
      modifies this
      ensures |data| == old(|data|) && offset == old(offset) + 4
      ensures data[..offset] == old(data[..offset]) + U32Le(x)
      ensures data[offset..] == old(data)[offset..]
    {
      WriteBytes(U32Le(x));
    }

    /** `writeU8(x)` */
    method WriteU8(x: byte)
      requires offset + 1 <= |data|
      modifies this
      ensures |data| == old(|data|) && offset == old(offset) + 1
      ensures data[..offset] == old(data[..offset]) + [x]
      ensures data[offset..] == old(data)[offset..]
    {
      WriteBytes([x]);
    }

    /** `seek(n)`: moves the cursor without writing. */
    method Seek(n: nat)
      requires offset + n <= |data|
      modifies this
      ensures data == old(data) && offset == old(offset) + n
    {
      offset := offset + n;
    }

    /** `render()`: the buffer itself. */
    method Render() returns (buf: array<byte>)
      ensures fresh(buf) && buf[..] == data
    {
      var d := data;
      buf := new byte[|d|](i requires 0 <= i < |d| => d[i]);
    }
  }

  /** `bio.read(data)`: a cursor over a buffer; a read past the end fails. */
  class BufferReader {
    const data: seq<byte>
    var offset: nat

    predicate Valid()
      reads this
    {
      offset <= |data|
    }

    constructor(data: seq<byte>)
      ensures this.data == data && offset == 0 && Valid()
    {
      this.data := data;
      offset := 0;
    }

    /** `readBytes(n)`: the next `n` bytes, or failure when fewer remain. */
    method ReadBytes(n: nat) returns (ok: bool, bytes: seq<byte>)
      requires Valid()
      modifies this
      ensures Valid()
      ensures ok <==> old(offset) + n <= |data|
      ensures ok ==> bytes == data[old(offset)..old(offset) + n] && offset == old(offset) + n
      ensures !ok ==> offset == old(offset)
    {
      if offset + n > |data| {
        return false, [];
      }
      bytes := data[offset..offset + n];
      offset := offset + n;
      ok := true;
    }

    /** `readU32()`: the next little-endian word. */
    method ReadU32() returns (ok: bool, x: u32)
      requires Valid()
      modifies this
      ensures Valid()
      ensures ok <==> old(offset) + 4 <= |data|
      ensures ok ==> x == ReadU32Le(data[old(offset)..old(offset) + 4]) && offset == old(offset) + 4
      ensures !ok ==> offset == old(offset)
    {
      var bytes;
      ok, bytes := ReadBytes(4);
      x := if ok then ReadU32Le(bytes) else 0;
    }

    /** `readHash()`: the next 32 bytes. */
    method ReadHash() returns (ok: bool, h: Hash)
      requires Valid()
      modifies this
      ensures Valid()
      ensures ok <==> old(offset) + 32 <= |data|
      ensures ok ==> h == data[old(offset)..old(offset) + 32] && offset == old(offset) + 32
      ensures !ok ==> offset == old(offset)
    {
      var bytes;
      ok, bytes := ReadBytes(32);
      h := if ok then bytes else seq(32, _ => 0);
    }

    /** `seek(n)`: moves the cursor by `n`, which may be negative. */
    method Seek(n: int) returns (ok: bool)
      requires Valid()
      modifies this
      ensures Valid()
      ensures ok <==> 0 <= old(offset) + n <= |data|
      ensures ok ==> offset == old(offset) + n
      ensures !ok ==> offset == old(offset)
    {
      if offset + n < 0 || offset + n > |data| {
        return false;
      }
      offset := offset + n;
      ok := true;
    }
  }

  /** `buf.writeUInt32LE(value, offset, true)`: the unsigned 32-bit image of
      `value` written little-endian into four bytes at `offset`, with no range
      check on `value`. */
  method WriteUInt32LE(buf: array<byte>, value: int, offset: nat)
    requires offset + 4 <= buf.Length
    modifies buf
    ensures buf[..] == old(buf[..offset]) + U32Le(ToUint32(value)) + old(buf[offset + 4..])
  {
    var w := U32Le(ToUint32(value));
    buf[offset] := w[0];
    buf[offset + 1] := w[1];
    buf[offset + 2] := w[2];
    buf[offset + 3] := w[3];
  }
}
