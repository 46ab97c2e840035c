/** The worker message framer: `Framer.packet` lays a payload out as
    `[id: u32 LE][cmd: u8][size: u32 LE][payload bytes][0x0a]`, leaving the
    size field blank while it writes and patching it into the rendered
    buffer afterwards. */
module Framer {
  import opened Bytes
  import opened Js
  import Bufio

  /** A packet for a worker: its id, its command, and the bytes that
      `payload.toWriter` writes, whose count is `payload.getSize()`. */
  datatype Payload = Payload(id: u32, cmd: byte, body: seq<byte>)

  /** The frame of a payload. The size field holds the body length as the
      32-bit word `writeUInt32LE` stores. */
  function Frame(p: Payload): (f: seq<byte>)
    ensures |f| == 10 + |p.body|
  {
    U32Le(p.id) + [p.cmd] + U32Le(ToUint32(|p.body|)) + p.body + [0x0a]
  }

  /** Every field of the frame at its offset: the frame is `10 + getSize()`
      bytes long, the id is in bytes 0..3, the command in byte 4, the body
      length in bytes 5..8 (read back as `msg.length - 10` when the body is
      shorter than 2^32 bytes), then the body, then the terminator. */
  lemma FrameLayout(p: Payload)
    ensures var f := Frame(p);
      var n := |p.body|;
      |f| == 10 + n &&
      ReadU32Le(f[..4]) == p.id && f[4] == p.cmd &&
      ReadU32Le(f[5..9]) == ToUint32(n) && (n < TWO_32 ==> ReadU32Le(f[5..9]) == |f| - 10) &&
      f[9..9 + n] == p.body && f[|f| - 1] == 0x0a
  {
    var f := Frame(p);
    var n := |p.body|;
    assert f[..4] == U32Le(p.id);
    assert f[5..9] == U32Le(ToUint32(n));
    assert f[9..9 + n] == p.body;
    U32RoundTrip(p.id);
    U32RoundTrip(ToUint32(n));
  }

  /** The receiving side's reading of a frame: the id, the command and the
      body, or nothing when the buffer is too short, its size field
      disagrees with its length, or it does not end with the terminator. */
  function ParseFrame(msg: seq<byte>): Option<Payload>
  {
    if |msg| < 10 || ReadU32Le(msg[5..9]) != |msg| - 10 || msg[|msg| - 1] != 0x0a then None
    else Some(Payload(ReadU32Le(msg[..4]), msg[4], msg[9..|msg| - 1]))
  }

  /** A frame reads back as its payload, whenever the body length fits the
      32-bit size field. */
  lemma ParseFrameOfFrame(p: Payload)
    requires |p.body| < TWO_32
    ensures ParseFrame(Frame(p)) == Some(p)
  {
    var f := Frame(p);
    FrameLayout(p);
    assert f[9..|f| - 1] == p.body;
  }

  /** A buffer that reads as a payload is that payload's frame. */
  lemma FrameOfParseFrame(msg: seq<byte>)
    requires ParseFrame(msg).Some?
    ensures |ParseFrame(msg).value.body| < TWO_32
    ensures Frame(ParseFrame(msg).value) == msg
  {
    var p := ParseFrame(msg).value;
    var n := |p.body|;
    assert n == ReadU32Le(msg[5..9]);
    ToUint32Word(n);
    U32OfBytes(msg[..4]);
    U32OfBytes(msg[5..9]);
    assert U32Le(p.id) == msg[..4] && U32Le(ToUint32(n)) == msg[5..9];
    FrameSplit(msg);
  }

  /** A buffer of at least ten bytes is its fields concatenated. */
  lemma FrameSplit(msg: seq<byte>)
    requires |msg| >= 10
    ensures msg == msg[..4] + [msg[4]] + msg[5..9] + msg[9..|msg| - 1] + [msg[|msg| - 1]]
  {
  }

  /** `packet(payload)`: a buffer of `10 + getSize()` bytes holding the frame. */
  method Packet(p: Payload) returns (msg: array<byte>)
    ensures fresh(msg) && msg[..] == Frame(p)
  {
    var size := 10 + |p.body|;
    var bw := new Bufio.BufferWriter(size);
    bw.WriteU32(p.id);
    bw.WriteU8(p.cmd);
    ghost var head := bw.data[..5];
    assert head == U32Le(p.id) + [p.cmd];
    bw.Seek(4);
    ghost var blank := bw.data[5..9];
    assert bw.data[..9] == head + blank;
    bw.WriteBytes(p.body);
    bw.WriteU8(0x0a);
    assert bw.data == bw.data[..bw.offset];
    msg := bw.Render();
    Bufio.WriteUInt32LE(msg, msg.Length - 10, 5);
  }
}
