/** The chain entry: a block header's fields together with the block's
    height and the cumulative proof of work up to and including it, as the
    chain index stores them (116 bytes per entry). */
module Chain {
  import opened Bytes
  import opened Js
  import Consensus
  import opened Bufio

  /** `ChainEntry.MAX_CHAINWORK`: 1 << 256. */
  const MAX_CHAINWORK: nat := 0x1_0000_0000_0000_0000_0000_0000_0000_0000_0000_0000_0000_0000_0000_0000_0000_0000

  /** `consensus.ZERO_HASH`. */
  const ZERO_HASH: Hash := seq(32, _ => 0)

  lemma MaxChainworkPow2()
    ensures MAX_CHAINWORK == Pow2(256)
  {
    Pow2Constants();
    var a := 32;
    Pow2Add(a, a);
    var b := a + a;
    Pow2Add(b, b);
    var c := b + b;
    Pow2Add(c, c);
  }

  /** The six fields of a block header, in wire order. */
  datatype BlockHeader = BlockHeader(version: u32, prevBlock: Hash, merkleRoot: Hash,
                                     time: u32, bits: u32, nonce: u32)

  /** The 80-byte serialization of a header, which the block hash is taken over. */
  function HeaderBytes(h: BlockHeader): (raw: seq<byte>)
    ensures |raw| == 80
  {
    U32Le(h.version) + h.prevBlock + h.merkleRoot + U32Le(h.time) + U32Le(h.bits) + U32Le(h.nonce)
  }

  /** The value held by the fields of a `ChainEntry`. */
  datatype EntryData = EntryData(hash: Hash, version: u32, prevBlock: Hash, merkleRoot: Hash,
                                 time: u32, bits: u32, nonce: u32, height: nat, chainwork: nat)

  function HeaderOf(d: EntryData): BlockHeader
  {
    BlockHeader(d.version, d.prevBlock, d.merkleRoot, d.time, d.bits, d.nonce)
  }

  // ---------------------------------------------------------------------
  // Proof of work

  lemma DivBounds(n: nat, d: nat)
    requires d > 0
    ensures n / d >= 0 && (n / d) * d <= n < (n / d + 1) * d
  {
    DivNonNeg(n, d);
    assert n == (n / d) * d + n % d;
    assert (n / d + 1) * d == (n / d) * d + d;
  }

  /** The work of a target: `2^256 / (target + 1)` rounded down, and nothing
      for a target that is zero or negative. */
  function Work(target: int): (work: nat)
    ensures target <= 0 ==> work == 0
    ensures target > 0 ==> work * (target + 1) <= MAX_CHAINWORK < (work + 1) * (target + 1)
  {
    if target < 0 || target == 0 then 0
    else
      DivBounds(MAX_CHAINWORK, target + 1);
      MAX_CHAINWORK / (target + 1)
  }

  /** `getProof()`: the expected number of hashes a block at this target
      took, the work of the target its `bits` encode. */
  function Proof(bits: u32): nat
  {
    Work(Consensus.FromCompact(bits))
  }

  /** No target is worth more than half of 2^256. */
  lemma WorkBound(target: int)
    ensures Work(target) <= MAX_CHAINWORK / 2
  {
    if target > 0 {
      Consensus.DivByLarger(MAX_CHAINWORK, 2, target + 1);
    }
  }

  /** An easier (larger) positive target is worth no more work. */
  lemma WorkAntitone(t1: int, t2: int)
    requires 0 < t1 <= t2
    ensures Work(t2) <= Work(t1)
  {
    Consensus.DivByLarger(MAX_CHAINWORK, t1 + 1, t2 + 1);
  }

  /** A target adds work exactly when it is positive and below 2^256. */
  lemma WorkPositive(target: int)
    ensures Work(target) >= 1 <==> 0 < target < MAX_CHAINWORK
  {
    if target > 0 {
      QuotientPositive(Work(target), target + 1, MAX_CHAINWORK);
    }
  }

  /** A floor quotient `p` of `m` by `d` is positive exactly when `d <= m`. */
  lemma QuotientPositive(p: nat, d: nat, m: nat)
    requires d >= 1 && p * d <= m < (p + 1) * d
    ensures p >= 1 <==> d <= m
  {
    MulMono(1, p, d);
    MulMono(p + 1, 1, d);
  }

  /** No block is worth more than half of 2^256. */
  lemma ProofBound(bits: u32)
    ensures Proof(bits) <= MAX_CHAINWORK / 2
  {
    WorkBound(Consensus.FromCompact(bits));
  }

  /** A block whose bits encode an easier (larger) positive target is worth
      no more work. */
  lemma ProofAntitone(b1: u32, b2: u32)
    requires 0 < Consensus.FromCompact(b1) <= Consensus.FromCompact(b2)
    ensures Proof(b2) <= Proof(b1)
  {
    WorkAntitone(Consensus.FromCompact(b1), Consensus.FromCompact(b2));
  }

  /** A block adds work exactly when its target is positive and below 2^256. */
  lemma ProofPositive(bits: u32)
    ensures Proof(bits) >= 1 <==> 0 < Consensus.FromCompact(bits) < MAX_CHAINWORK
  {
    WorkPositive(Consensus.FromCompact(bits));
  }

  /** Every block that passes the proof-of-work check adds work. */
  lemma ValidBlockAddsWork(hash: Hash, bits: u32)
    requires Consensus.VerifyPow(hash, bits)
    ensures Proof(bits) >= 1
  {
    Consensus.VerifyPowMeaning(hash, bits);
    MaxChainworkPow2();
    ProofPositive(bits);
  }

  // ---------------------------------------------------------------------
  // Building entries from blocks

  /** `getChainwork(prev)`: this block's proof plus the previous entry's chainwork. */
  function Chainwork(bits: u32, prev: Option<EntryData>): (w: nat)
    ensures w >= Proof(bits) && (prev.Some? ==> w >= prev.value.chainwork)
  {
    if prev.None? then Proof(bits) else Proof(bits) + prev.value.chainwork
  }

  /** The entry `fromBlock(block, prev)` produces; the block hash is the
      double-SHA256 of the 80-byte header. */
  function EntryOfBlock(block: BlockHeader, prev: Option<EntryData>, hash256: seq<byte> -> Hash): EntryData
  {
    EntryData(hash256(HeaderBytes(block)), block.version, block.prevBlock, block.merkleRoot,
              block.time, block.bits, block.nonce,
              if prev.None? then 0 else prev.value.height + 1,
              Chainwork(block.bits, prev))
  }

  /** The entries of a chain of blocks, each built from the one before it. */
  function BuildChain(blocks: seq<BlockHeader>, hash256: seq<byte> -> Hash): (chain: seq<EntryData>)
    ensures |chain| == |blocks|
    decreases |blocks|
  {
    if blocks == [] then []
    else
      var c := BuildChain(blocks[..|blocks| - 1], hash256);
      c + [EntryOfBlock(blocks[|blocks| - 1], if c == [] then None else Some(c[|c| - 1]), hash256)]
  }

  /** The sum of the proofs of a sequence of blocks. */
  function TotalWork(blocks: seq<BlockHeader>): nat
    decreases |blocks|
  {
    if blocks == [] then 0 else TotalWork(blocks[..|blocks| - 1]) + Proof(blocks[|blocks| - 1].bits)
  }

  /** The entry before entry `i` of a chain, the `prev` it was built from. */
  function PrevOf(chain: seq<EntryData>, i: nat): Option<EntryData>
    requires i < |chain|
  {
    if i == 0 then None else Some(chain[i - 1])
  }

  /** The chain of a prefix of the blocks is the prefix of the chain. */
  lemma {:induction false} ChainPrefix(blocks: seq<BlockHeader>, hash256: seq<byte> -> Hash, k: nat)
    requires k <= |blocks|
    ensures BuildChain(blocks[..k], hash256) == BuildChain(blocks, hash256)[..k]
    decreases |blocks|
  {
    if k < |blocks| {
      var n := |blocks| - 1;
      ChainPrefix(blocks[..n], hash256, k);
      assert blocks[..n][..k] == blocks[..k];
    } else {
      assert blocks[..k] == blocks;
    }
  }

  /** Each entry of a chain is built from its block and the entry before it. */
  lemma ChainLink(blocks: seq<BlockHeader>, hash256: seq<byte> -> Hash, i: nat)
    requires i < |blocks|
    ensures BuildChain(blocks, hash256)[i] ==
      EntryOfBlock(blocks[i], PrevOf(BuildChain(blocks, hash256), i), hash256)
  {
    var c := BuildChain(blocks, hash256);
    var b := blocks[..i + 1];
    ChainPrefix(blocks, hash256, i + 1);
    ChainPrefix(blocks, hash256, i);
    assert b[..i] == blocks[..i];
    BuildChainLast(b, hash256);
    assert BuildChain(b, hash256)[i] == c[i];
    assert BuildChain(b, hash256) == c[..i + 1];
    assert PrevOf(BuildChain(b, hash256), i) == PrevOf(c, i);
  }

  /** The last entry is built from the last block and the entry before it. */
  lemma BuildChainLast(blocks: seq<BlockHeader>, hash256: seq<byte> -> Hash)
    requires |blocks| > 0
    ensures var n := |blocks| - 1;
      BuildChain(blocks, hash256)[n] == EntryOfBlock(blocks[n], PrevOf(BuildChain(blocks, hash256), n), hash256)
  {
  }

  lemma TotalWorkStep(blocks: seq<BlockHeader>, i: nat)
    requires i < |blocks|
    ensures TotalWork(blocks[..i + 1]) == TotalWork(blocks[..i]) + Proof(blocks[i].bits)
  {
    var s := blocks[..i + 1];
    assert s[..|s| - 1] == blocks[..i];
  }

  /** In a chain built block by block, entry `i` has height `i` (so only the
      first is the genesis entry), the hash of block `i`, and the total work of
      blocks `0..i`. */
  lemma {:induction false} ChainIndex(blocks: seq<BlockHeader>, hash256: seq<byte> -> Hash, i: nat)
    requires i < |blocks|
    ensures BuildChain(blocks, hash256)[i].height == i
    ensures BuildChain(blocks, hash256)[i].hash == hash256(HeaderBytes(blocks[i]))
    ensures BuildChain(blocks, hash256)[i].chainwork == TotalWork(blocks[..i + 1])
  {
    ChainLink(blocks, hash256, i);
    TotalWorkStep(blocks, i);
    if i > 0 {
      ChainIndex(blocks, hash256, i - 1);
    } else {
      assert blocks[..i] == [];
    }
  }

  /** Chainwork never decreases along a chain. */
  lemma {:induction false} ChainworkMonotone(blocks: seq<BlockHeader>, hash256: seq<byte> -> Hash, i: nat, j: nat)
    requires i <= j < |blocks|
    ensures BuildChain(blocks, hash256)[i].chainwork <= BuildChain(blocks, hash256)[j].chainwork
  {
    ChainIndex(blocks, hash256, i);
    ChainIndex(blocks, hash256, j);
    TotalWorkMonotone(blocks[..j + 1], i + 1);
    assert blocks[..j + 1][..i + 1] == blocks[..i + 1];
  }

  lemma {:induction false} TotalWorkMonotone(blocks: seq<BlockHeader>, k: nat)
    requires k <= |blocks|
    ensures TotalWork(blocks[..k]) <= TotalWork(blocks)
    decreases |blocks|
  {
    if k < |blocks| {
      var prefix := blocks[..|blocks| - 1];
      TotalWorkMonotone(prefix, k);
      assert prefix[..k] == blocks[..k];
    } else {
      assert blocks[..k] == blocks;
    }
  }

  // ---------------------------------------------------------------------
  // Serialization

  /** What `toRaw()` can write: the height must fit in a 32-bit word and the
      chainwork in 32 little-endian bytes. */
  predicate Encodable(d: EntryData)
  {
    d.height < TWO_32 && d.chainwork < MAX_CHAINWORK
  }

  /** `toRaw()`: the header (80 bytes), the height (4) and the chainwork (32,
      little-endian). */
  function EncodeEntry(d: EntryData): (raw: seq<byte>)
    requires Encodable(d)
    ensures |raw| == 116 && raw[..80] == HeaderBytes(HeaderOf(d))
  {
    HeaderBytes(HeaderOf(d)) + U32Le(d.height) + LeBytes(d.chainwork, 32)
  }

  /** The six header fields of an 80-byte serialized header. */
  function HeaderFromBytes(raw: seq<byte>): BlockHeader
    requires |raw| == 80
  {
    BlockHeader(ReadU32Le(raw[0..4]), raw[4..36], raw[36..68],
                ReadU32Le(raw[68..72]), ReadU32Le(raw[72..76]), ReadU32Le(raw[76..80]))
  }

  /** The fields read one after another from the start of a buffer are the
      fields of its first 80 bytes. */
  lemma HeaderFields(data: seq<byte>, v: u32, p: Hash, m: Hash, t: u32, b: u32, n: u32)
    requires |data| >= 80
    requires v == ReadU32Le(data[0..4]) && p == data[4..36] && m == data[36..68]
    requires t == ReadU32Le(data[68..72]) && b == ReadU32Le(data[72..76]) && n == ReadU32Le(data[76..80])
    ensures BlockHeader(v, p, m, t, b, n) == HeaderFromBytes(data[..80])
  {
    var raw := data[..80];
    assert raw[0..4] == data[0..4] && raw[4..36] == data[4..36] && raw[36..68] == data[36..68];
    assert raw[68..72] == data[68..72] && raw[72..76] == data[72..76] && raw[76..80] == data[76..80];
  }

  /** `fromRaw(data)` on a buffer of at least 116 bytes: the hash is recomputed
      from the first 80 bytes, then the fields are read from the start. */
  function DecodeEntry(data: seq<byte>, hash256: seq<byte> -> Hash): EntryData
    requires |data| >= 116
  {
    var h := HeaderFromBytes(data[..80]);
    EntryData(hash256(data[..80]), h.version, h.prevBlock, h.merkleRoot, h.time, h.bits, h.nonce,
              ReadU32Le(data[80..84]), LeValue(data[84..116]))
  }

  lemma HeaderDecode(h: BlockHeader)
    ensures HeaderFromBytes(HeaderBytes(h)) == h
  {
    var raw := HeaderBytes(h);
    assert raw[0..4] == U32Le(h.version);
    assert raw[4..36] == h.prevBlock;
    assert raw[36..68] == h.merkleRoot;
    assert raw[68..72] == U32Le(h.time);
    assert raw[72..76] == U32Le(h.bits);
    assert raw[76..80] == U32Le(h.nonce);
    U32RoundTrip(h.version);
    U32RoundTrip(h.time);
    U32RoundTrip(h.bits);
    U32RoundTrip(h.nonce);
  }

  lemma HeaderEncode(raw: seq<byte>)
    requires |raw| == 80
    ensures HeaderBytes(HeaderFromBytes(raw)) == raw
  {
    U32OfBytes(raw[0..4]);
    U32OfBytes(raw[68..72]);
    U32OfBytes(raw[72..76]);
    U32OfBytes(raw[76..80]);
    assert raw == raw[0..4] + raw[4..36] + raw[36..68] + raw[68..72] + raw[72..76] + raw[76..80];
  }

  lemma ChainworkBytes(w: nat, len: nat)
    requires len == 32 && w < MAX_CHAINWORK
    ensures LeValue(LeBytes(w, len)) == w
  {
    MaxChainworkPow2();
    LeBytesValue(w, len);
  }

  lemma ChainworkBound(s: seq<byte>)
    requires |s| == 32
    ensures LeValue(s) < MAX_CHAINWORK
  {
    MaxChainworkPow2();
    LeValueBound(s);
  }

  /** Decoding an encoded entry restores every field; the hash becomes the
      hash of its header. */
  lemma EncodeDecode(d: EntryData, hash256: seq<byte> -> Hash)
    requires Encodable(d)
    ensures DecodeEntry(EncodeEntry(d), hash256) == d.(hash := hash256(HeaderBytes(HeaderOf(d))))
  {
    var raw := EncodeEntry(d);
    HeaderDecode(HeaderOf(d));
    assert raw[80..84] == U32Le(d.height);
    AppendTail(HeaderBytes(HeaderOf(d)) + U32Le(d.height), LeBytes(d.chainwork, 32));
    U32RoundTrip(d.height);
    ChainworkBytes(d.chainwork, 32);
  }

  /** Every 116-byte record is the encoding of the entry decoded from it. */
  lemma DecodeEncodeRaw(data: seq<byte>, hash256: seq<byte> -> Hash)
    requires |data| == 116
    ensures Encodable(DecodeEntry(data, hash256))
    ensures EncodeEntry(DecodeEntry(data, hash256)) == data
  {
    var d := DecodeEntry(data, hash256);
    ChainworkBound(data[84..116]);
    HeaderEncode(data[..80]);
    U32OfBytes(data[80..84]);
    LeValueBytes(data[84..116]);
    assert data == data[..80] + data[80..84] + data[84..116];
  }

  /** An entry built from a block and stored comes back with exactly the same
      fields, its hash included. */
  lemma BlockEntryRoundTrip(block: BlockHeader, prev: Option<EntryData>, hash256: seq<byte> -> Hash)
    requires Encodable(EntryOfBlock(block, prev, hash256))
    ensures DecodeEntry(EncodeEntry(EntryOfBlock(block, prev, hash256)), hash256) == EntryOfBlock(block, prev, hash256)
  {
    var d := EntryOfBlock(block, prev, hash256);
    assert HeaderOf(d) == block;
    EncodeDecode(d, hash256);
  }

  /** What the reads of `fromRaw` produce, up to the first one that runs
      past the end of the buffer: the hash and header fields, the height, the
      chainwork. */
  datatype RawEntry = RawEntry(header: Option<(Hash, BlockHeader)>, height: Option<u32>, chainwork: Option<nat>)

  /** The six header fields, read one after another from the start of a
      buffer of at least 80 bytes. */
  method ReadHeader(br: BufferReader) returns (header: BlockHeader)
    requires br.Valid() && br.offset == 0 && |br.data| >= 80
    modifies br
    ensures br.Valid() && br.offset == 80
    ensures header == HeaderFromBytes(br.data[..80])
  {
    var ok1, v := br.ReadU32();
    var ok2, p := br.ReadHash();
    var ok3, m := br.ReadHash();
    var ok4, t := br.ReadU32();
    var ok5, b := br.ReadU32();
    var ok6, n := br.ReadU32();
    HeaderFields(br.data, v, p, m, t, b, n);
    header := BlockHeader(v, p, m, t, b, n);
  }

  /** The reads of `fromRaw`: 80 bytes hashed, a seek back to the start, then
      the fields one after another. */
  method ReadEntry(data: seq<byte>, hash256: seq<byte> -> Hash) returns (r: RawEntry)
    ensures r.header.Some? <==> |data| >= 80
    ensures r.header.Some? ==> r.header.value == (hash256(data[..80]), HeaderFromBytes(data[..80]))
    ensures r.height.Some? <==> |data| >= 84
    ensures r.height.Some? ==> r.height.value == ReadU32Le(data[80..84])
    ensures r.chainwork.Some? <==> |data| >= 116
    ensures r.chainwork.Some? ==> r.chainwork.value == LeValue(data[84..116])
  {
    var br := new BufferReader(data);
    var okHeader, raw := br.ReadBytes(80);
    if !okHeader {
      return RawEntry(None, None, None);
    }
    var digest := hash256(raw);
    var okSeek := br.Seek(-80);
    var fields := ReadHeader(br);
    var header := Some((digest, fields));
    var okHeight, h := br.ReadU32();
    if !okHeight {
      return RawEntry(header, None, None);
    }
    var okWork, w := br.ReadBytes(32);
    if !okWork {
      return RawEntry(header, Some(h), None);
    }
    r := RawEntry(header, Some(h), Some(LeValue(w)));
  }

  // ---------------------------------------------------------------------
  // Options

  /** The options object of `fromOptions`: numbers are arbitrary integers
      until checked; `chainwork` may be absent. */
  datatype EntryOptions = EntryOptions(hash: Hash, version: int, prevBlock: Hash, merkleRoot: Hash,
                                       time: int, bits: int, nonce: int, height: int,
                                       chainwork: Option<nat>)

  /** `(x >>> 0) === x` */
  predicate IsU32(x: int)
  {
    ShiftRightUnsigned(x, 0) == x
  }

  lemma IsU32Range(x: int)
    ensures IsU32(x) <==> 0 <= x < TWO_32
  {
    UnsignedImage(x);
  }

  /** The assertions of `fromOptions`. */
  predicate OptionsValid(options: Option<EntryOptions>)
  {
    options.Some? && IsU32(options.value.version) && IsU32(options.value.time)
    && IsU32(options.value.bits) && IsU32(options.value.nonce) && IsU32(options.value.height)
  }

  /** The entry valid options describe; an absent chainwork is zero. */
  function OptionsEntry(o: EntryOptions): (d: EntryData)
    requires OptionsValid(Some(o))
    ensures d.version == o.version && d.time == o.time && d.bits == o.bits
    ensures d.nonce == o.nonce && d.height == o.height
    ensures d.chainwork == (if o.chainwork.None? then 0 else o.chainwork.value)
  {
    IsU32Range(o.version);
    IsU32Range(o.time);
    IsU32Range(o.bits);
    IsU32Range(o.nonce);
    IsU32Range(o.height);
    EntryData(o.hash, o.version, o.prevBlock, o.merkleRoot, o.time, o.bits, o.nonce, o.height,
              if o.chainwork.None? then 0 else o.chainwork.value)
  }

  // ---------------------------------------------------------------------
  // The entry object

  class ChainEntry {
    var hash: Hash
    var version: u32
    var prevBlock: Hash
    var merkleRoot: Hash
    var time: u32
    var bits: u32
    var nonce: u32
    var height: nat
    var chainwork: nat

    function Data(): EntryData
      reads this
    {
      EntryData(hash, version, prevBlock, merkleRoot, time, bits, nonce, height, chainwork)
    }

    /** `new ChainEntry()`: version 1, zero hashes, every number zero. */
    constructor()
      ensures Data() == EntryData(ZERO_HASH, 1, ZERO_HASH, ZERO_HASH, 0, 0, 0, 0, 0)
    {
      hash := ZERO_HASH;
      version := 1;
      prevBlock := ZERO_HASH;
      merkleRoot := ZERO_HASH;
      time := 0;
      bits := 0;
      nonce := 0;
      height := 0;
      chainwork := 0;
    }

    /** `fromOptions(options)`: fails (the source's assertion) when there are
        no options or a number is not an unsigned 32-bit integer, and then
        changes nothing. */
    method FromOptions(options: Option<EntryOptions>) returns (ok: bool)
      modifies this
      ensures ok <==> OptionsValid(options)
      ensures ok ==> Data() == OptionsEntry(options.value)
      ensures !ok ==> unchanged(this)
    {
      if !OptionsValid(options) {
        return false;
      }
      var o := options.value;
      var d := OptionsEntry(o);
      hash := o.hash;
      version := d.version;
      prevBlock := o.prevBlock;
      merkleRoot := o.merkleRoot;
      time := d.time;
      bits := d.bits;
      nonce := d.nonce;
      height := d.height;
      chainwork := d.chainwork;
      return true;
    }

    /** `fromBlock(block, prev)`: the header fields, the height after `prev`
        (0 without one) and the chainwork through this block. */
    method FromBlock(block: BlockHeader, prev: ChainEntry?, hash256: seq<byte> -> Hash)
      modifies this
      ensures prev == null ==> Data() == EntryOfBlock(block, None, hash256)
      ensures prev != null ==> Data() == EntryOfBlock(block, Some(old(prev.Data())), hash256)
    {
      var p := if prev == null then None else Some(prev.Data());
      hash := hash256(HeaderBytes(block));
      version := block.version;
      prevBlock := block.prevBlock;
      merkleRoot := block.merkleRoot;
      time := block.time;
      bits := block.bits;
      nonce := block.nonce;
      height := if p.None? then 0 else p.value.height + 1;
      chainwork := Chainwork(bits, p);
    }

    /** `toRaw()`: the entry written field by field into a 116-byte buffer. */
    method ToRaw() returns (raw: array<byte>)
      requires Encodable(Data())
      ensures fresh(raw) && raw[..] == EncodeEntry(Data())
    {
      var bw := new BufferWriter(116);
      ghost var h := HeaderOf(Data());
      bw.WriteU32(version);
      assert bw.data[..4] == U32Le(h.version);
      bw.WriteBytes(prevBlock);
      assert bw.data[..36] == U32Le(h.version) + h.prevBlock;
      bw.WriteBytes(merkleRoot);
      ghost var prefix := U32Le(h.version) + h.prevBlock + h.merkleRoot;
      assert bw.data[..68] == prefix;
      bw.WriteU32(time);
      assert bw.data[..72] == prefix + U32Le(h.time);
      bw.WriteU32(bits);
      assert bw.data[..76] == prefix + U32Le(h.time) + U32Le(h.bits);
      bw.WriteU32(nonce);
      assert bw.data[..80] == HeaderBytes(h);
      bw.WriteU32(height);
      assert bw.data[..84] == HeaderBytes(h) + U32Le(height);
      bw.WriteBytes(LeBytes(chainwork, 32));
      assert bw.data[..116] == HeaderBytes(h) + U32Le(height) + LeBytes(chainwork, 32);
      assert bw.data == bw.data[..116];
      raw := bw.Render();
    }

    /** `fromRaw(data)`: succeeds exactly on a buffer of at least 116 bytes
        and then holds the decoded entry. On a shorter buffer the read that
        runs past the end fails after the fields before it were assigned. */
    method FromRaw(data: seq<byte>, hash256: seq<byte> -> Hash) returns (ok: bool)
      modifies this
      ensures ok <==> |data| >= 116
      ensures ok ==> Data() == DecodeEntry(data, hash256)
      ensures |data| < 80 ==> unchanged(this)
      ensures 80 <= |data| ==> hash == hash256(data[..80]) && HeaderOf(Data()) == HeaderFromBytes(data[..80])
      ensures 84 <= |data| ==> height == ReadU32Le(data[80..84])
      ensures |data| < 84 ==> height == old(height)
      ensures |data| < 116 ==> chainwork == old(chainwork)
    {
      var r := ReadEntry(data, hash256);
      if r.header.None? {
        return false;
      }
      var header := r.header.value.1;
      hash := r.header.value.0;
      version := header.version;
      prevBlock := header.prevBlock;
      merkleRoot := header.merkleRoot;
      time := header.time;
      bits := header.bits;
      nonce := header.nonce;
      if r.height.None? {
        return false;
      }
      height := r.height.value;
      if r.chainwork.None? {
        return false;
      }
      chainwork := r.chainwork.value;
      ok := true;
    }

    /** `isGenesis()` */
    predicate IsGenesis()
      reads this
    {
      height == 0
    }

    /** `hasUnknown(network)`: the version uses the BIP 9 scheme and signals
        one of the network's unknown bits. */
    predicate HasUnknown(unknownBits: int)
      reads this
    {
      var topBits := ShiftRightUnsigned(And(version, Consensus.VERSION_TOP_MASK), 0);
      if topBits != Consensus.VERSION_TOP_BITS then false
      else And(version, unknownBits) != 0
    }

    /** `hasBit(bit)` */
    predicate HasBit(bit: int)
      reads this
    {
      Consensus.HasBit(version, bit)
    }
  }

  /** An entry reports an unknown bit exactly when its top three version bits
      are 001 and the version shares a set bit with the unknown-bits mask. */
  lemma HasUnknownMeaning(e: ChainEntry, unknownBits: int)
    ensures e.HasUnknown(unknownBits) <==>
      Shr(e.version, 29) == 1 && BitAnd(e.version, ToUint32(unknownBits)) != 0
  {
    Consensus.TopBitsMeaning(e.version);
    assert ToUint32(e.version) == e.version;
    BitAndLe(e.version, ToUint32(unknownBits));
    ToInt32Zero(BitAnd(e.version, ToUint32(unknownBits)));
  }

  /** An entry signals a bit exactly as `consensus.hasBit` reads its version. */
  lemma EntryHasBit(e: ChainEntry, bit: int)
    ensures e.HasBit(bit) <==> Shr(e.version, 29) == 1 && Bit(e.version, ToUint32(bit) % 32)
  {
    Consensus.HasBitMeaning(e.version, bit);
    assert ToUint32(e.version) == e.version;
  }

  /** An entry holding entry `i` of a chain is the genesis entry exactly when
      it is the first one. */
  lemma GenesisIsFirst(e: ChainEntry, blocks: seq<BlockHeader>, hash256: seq<byte> -> Hash, i: nat)
    requires i < |blocks| && e.Data() == BuildChain(blocks, hash256)[i]
    ensures e.IsGenesis() <==> i == 0
  {
    ChainIndex(blocks, hash256, i);
  }
}
