# bcoin proof of work, chain entries, CPU mining and worker framing in Dafny

This project models the proof-of-work core of bcoin, a Bitcoin node written in JavaScript, and proves properties of that model:

- **Consensus arithmetic** (`consensus.dfy`). This covers:
  - the "compact" difficulty encoding, `fromCompact` and `toCompact`;
  - the proof-of-work check, `verifyPOW`;
  - the block subsidy schedule, `getReward`;
  - BIP 9 version bits, `hasBit`.
- **The chain entry** (`chain.dfy`). This covers:
  - the work of a block, `getProof`, and the cumulative work, `getChainwork`;
  - building an entry from a block, `fromBlock`, and from an options object, `fromOptions`;
  - the 116-byte storage format, `toRaw` and `fromRaw`;
  - the version-bit queries.
- **The nonce search** (`mine.dfy`). `mine` rewrites the nonce field of an 80-byte header in place until the header's hash, compared by `rcmp` as a little-endian number, is at most the target.
- **The CPU miner** (`cpuminer.dfy`):
  - A job (`CPUJob`) holds a block template and a pair of extra nonces.
  - The miner searches the 32-bit nonce range in 1500 windows of `INTERVAL` nonces. It does this synchronously (`findNonce`) or on workers (`findNonceAsync`). In the worker case, other events may destroy the job while a window is at a worker.
  - When a whole search fails, the miner moves to the next extra nonce and retries (`mine`, `mineAsync`).
  - The miner drops stale jobs when a new tip arrives or a transaction enters the mempool.
- **The worker framer** (`framer.dfy`). `packet` lays out the messages sent to worker processes.

Three supporting modules hold the building blocks the source relies on:

- `js.dfy` models JavaScript's 32-bit operators: `>>>`, `>>`, `<<`, `&`, `|`. They are modelled on unbounded integers through `ToInt32`/`ToUint32`.
- `bytes.dfy` holds little-endian byte strings.
- `bufio.dfy` models the buffer writer and reader the serializers call.

All hashing is a parameter, `hash256: seq<byte> -> Hash` (double SHA-256). Nothing in the model depends on which hash function it is.

How the miner's search is specified:

- For each header, the ghost sequence `hits` lists what `mine` returns on each of the 1500 windows. `HitsAre` ties `hits` to `Mine.FirstHit`, the reference definition of the search.
- `HeaderHits` builds such a sequence from the template, and `HeaderHitsAre` proves that it is one. So the miner's contracts hold of the real window results, not only of an assumed family.
- Every method is then proved against `Windows`, `FailedWindows` and `FindOutcome`. Lemmas connect these to the least hit in the range `0..1500*INTERVAL`.

## Model

| member | source | states |
|---|---|---|
| Consensus.FromCompact | lib/protocol/consensus.js:244-266 | the definition of `fromCompact`: 0 for a zero word; otherwise the exponent `compact >>> 24`, the sign `(compact >>> 23) & 1` and the mantissa `compact & 0x7fffff`, the mantissa shifted right by 8·(3−exponent) bytes or left by 8·(exponent−3), negated when the sign is set; its meaning is proved by the rows below |
| Consensus.FromCompactValue | lib/protocol/consensus.js:244-266 | `fromCompact` decodes a word as ±mantissa·256^(exponent−3): exponent from the top byte, sign from bit 23, mantissa from the low 23 bits, shifted right for an exponent of 3 or less |
| Consensus.CompactFieldOps | lib/protocol/consensus.js:248-251 | the `>>>`/`&` expressions extract exactly the exponent byte, the sign bit and the 23-bit mantissa |
| Consensus.MagnitudeShift | lib/protocol/consensus.js:254-260 | the right shift for short exponents and `iushln` for long ones both place the mantissa at byte position exponent−3 |
| Consensus.FromCompactSign | lib/protocol/consensus.js:262-263 | a decoded target is negative only if bit 23 is set, and positive only if it is clear |
| Consensus.ToCompact | lib/protocol/consensus.js:275-302 | the definition of `toCompact`: 0 for zero; otherwise the byte length as exponent, the top three bytes (shifted up into three bytes for a short number) as mantissa, moved down a byte with the exponent raised when `mantissa & 0x800000` is set, then `(exponent << 24) \| mantissa`, the sign bit for a negative number, and `>>> 0`; its meaning is proved by the rows below |
| Consensus.ToCompactWrap | lib/protocol/consensus.js:275-302 | for every positive number, `toCompact` gives the exponent of `CompactParts` modulo 256 in the top byte (`exponent << 24` keeps only its low byte) and the three top bytes, normalised below 2^23, as the mantissa; the sign bit is clear |
| Consensus.ToCompactSignClear | lib/protocol/consensus.js:275-302 | `toCompact` never sets the sign bit of a non-negative number, however long |
| Consensus.ToCompactPositive | lib/protocol/consensus.js:275-302 | for a positive number below 2^(8·126), the exponent is not reduced: the top byte holds the byte length (plus one after normalisation) and the mantissa is below 2^23 |
| Consensus.CompactRoundTrip | lib/protocol/consensus.js:244-302 | for a positive number below 2^(8·126), decoding its encoding gives the number truncated below byte exponent−3 of the encoded word (its top three bytes, or its top two when the normalisation carry fires); a number below 2^23 comes back unchanged |
| Consensus.SmallExponent | lib/protocol/consensus.js:282-292 | a number below 2^23 gets an exponent of at most 3 |
| Consensus.CompactCanonical | lib/protocol/consensus.js:244-302 | a word in the form `toCompact` produces (sign clear, any exponent from 3 to 255, two significant mantissa bytes) is re-encoded to itself: `toCompact(fromCompact(c)) == c` |
| Consensus.ToCompactIdempotent | lib/protocol/consensus.js:244-302 | for a positive number below 2^(8·125), re-encoding a decoded encoding changes nothing |
| Consensus.ToCompactMinusOne | lib/protocol/consensus.js:283-299 | as written, `toCompact(-1)` is 0xffffff00: exponent byte 0xff, decoding below −2^256 (see Findings) |
| Consensus.SignMagnitudeRoundTrip | lib/protocol/consensus.js:275-302 | the sign-magnitude encoding of a negative number decodes to minus the decoding of its magnitude, and to the number itself above −2^23 (corrected `toCompact`, see Findings) |
| Consensus.NegatedValue | lib/protocol/consensus.js:262-263 | setting the sign bit of a word negates the target it decodes to |
| Consensus.VerifyPow | lib/protocol/consensus.js:311-326 | the definition of `verifyPOW`: false for a negative or zero target, or one of more than 256 bits; otherwise whether the hash, read little-endian, is not greater than the target |
| Consensus.VerifyPowMeaning | lib/protocol/consensus.js:311-326 | `verifyPOW` holds exactly when the target is in (0, 2^256) and the hash, read little-endian, is at most the target |
| Consensus.VerifyPowRejectsNegative | lib/protocol/consensus.js:314-315 | a word with the sign bit set never admits a block |
| Consensus.VerifyPowRejectsWide | lib/protocol/consensus.js:317-318 | a word with an exponent of 35 or more never admits a block |
| Consensus.GetReward | lib/protocol/consensus.js:334-355 | the assertion fails exactly on a negative height (the definition follows `Math.floor(height / interval)`, the 33-halving cut-off, `BASE_REWARD` at zero halvings and `HALF_REWARD >>> (halvings - 1)` otherwise) |
| Consensus.GetRewardSchedule | lib/protocol/consensus.js:334-355 | for a positive interval: an assertion failure on a negative height; otherwise 50 coins divided by 2^⌊height/interval⌋, rounded down (zero from the 33rd halving on) |
| Consensus.GetRewardNonIncreasing | lib/protocol/consensus.js:334-355 | for a positive interval, the subsidy never grows with height and never exceeds `BASE_REWARD` (with a negative interval it can grow, see `GetRewardDegenerate`) |
| Consensus.GetRewardDegenerate | lib/protocol/consensus.js:334-355 | for a zero interval, the genesis block earns `HALF_REWARD` (NaN halvings) and every later block nothing (Infinity); for a negative interval, the genesis block earns `BASE_REWARD` and a later block, with negative halvings h, earns `HALF_REWARD` / 2^((h−1) mod 32) |
| Consensus.LastSubsidy | lib/protocol/consensus.js:344-354 | the 32nd halving era pays one satoshi and the 33rd pays nothing |
| Consensus.HasBit | lib/protocol/consensus.js:364-370 | the definition of `hasBit`: `(version & VERSION_TOP_MASK) >>> 0` equals `VERSION_TOP_BITS` and `version & (1 << bit)` is non-zero; its meaning is `HasBitMeaning` |
| Consensus.HasBitMeaning | lib/protocol/consensus.js:364-370 | `hasBit(version, bit)` holds exactly when the top three version bits are 001 and bit `bit mod 32` is set |
| Consensus.TopBitsMeaning | lib/protocol/consensus.js:111-120 | the masked top bits equal `VERSION_TOP_BITS` exactly when bits 29..31 of the version are 001 |
| Consensus.MaskMeaning | lib/protocol/consensus.js:368-369 | `version & (1 << bit)` is non-zero exactly when bit `bit mod 32` of the version is set |
| Chain.MaxChainworkPow2 | lib/blockchain/chainentry.js:382 | `MAX_CHAINWORK` is 2^256 |
| Chain.Proof | lib/blockchain/chainentry.js:117-124 | the definition of `getProof`: the work of the target `fromCompact(bits)`; its bounds are the `Proof…` rows below |
| Chain.Work | lib/blockchain/chainentry.js:117-124 | the work of a positive target is the floor of 2^256/(target+1); a zero or negative target gives no work |
| Chain.WorkBound | lib/blockchain/chainentry.js:117-124 | no target is worth more than 2^255 |
| Chain.WorkPositive | lib/blockchain/chainentry.js:117-124 | a target adds work exactly when it is positive and below 2^256 |
| Chain.WorkAntitone | lib/blockchain/chainentry.js:117-124 | an easier (larger) positive target is worth no more work |
| Chain.ProofBound | lib/blockchain/chainentry.js:117-124 | `getProof` of any `bits` is at most 2^255 |
| Chain.ProofAntitone | lib/blockchain/chainentry.js:117-124 | bits encoding an easier positive target give no more proof |
| Chain.ProofPositive | lib/blockchain/chainentry.js:117-124 | `getProof` is positive exactly when the decoded target is in (0, 2^256) |
| Chain.ValidBlockAddsWork | lib/blockchain/chainentry.js:117-124 | every block that passes `verifyPOW` adds at least one unit of work |
| Chain.Chainwork | lib/blockchain/chainentry.js:132-139 | `getChainwork(prev)` is at least this block's proof and at least `prev`'s chainwork |
| Chain.EntryOfBlock | lib/blockchain/chainentry.js:193-204 | the definition of `fromBlock`'s result: the block's header fields, its hash, the height after `prev` (0 without one) and `getChainwork(prev)`; `ChainEntry.FromBlock` is proved to hold it |
| Chain.BuildChain | lib/blockchain/chainentry.js:193-204 | a chain built by `fromBlock` has one entry per block |
| Chain.ChainPrefix | lib/blockchain/chainentry.js:193-204 | the entries built from a prefix of the blocks are a prefix of the chain |
| Chain.ChainLink | lib/blockchain/chainentry.js:193-204 | each entry is `fromBlock(block i, entry i−1)` |
| Chain.BuildChainLast | lib/blockchain/chainentry.js:193-204 | helper, one step of the definition: the last entry is built from the last block and the entry before it |
| Chain.ChainIndex | lib/blockchain/chainentry.js:132-148 | entry i has height i (so only the first is the genesis entry), the hash of block i, and a chainwork equal to the total proof of blocks 0..i |
| Chain.ChainEntry.IsGenesis | lib/blockchain/chainentry.js:146-148 | the definition of `isGenesis`: the height is 0; `GenesisIsFirst` ties it to the chain |
| Chain.GenesisIsFirst | lib/blockchain/chainentry.js:146-148 | an entry holding entry i of a chain built by `fromBlock` is the genesis entry exactly when i is 0 |
| Chain.ChainworkMonotone | lib/blockchain/chainentry.js:132-139 | chainwork never decreases along a chain |
| Chain.TotalWorkMonotone | lib/blockchain/chainentry.js:132-139 | the total proof of a prefix of the blocks is at most that of all of them |
| Chain.EncodeEntry | lib/blockchain/chainentry.js:222-237 | the stored record is 116 bytes, and its first 80 bytes are the serialized header |
| Chain.HeaderDecode | lib/blockchain/chainentry.js:250-260 | reading the six fields back from a serialized header gives the header |
| Chain.HeaderEncode | lib/blockchain/chainentry.js:250-260 | every 80-byte buffer is the serialization of the header read from it |
| Chain.HeaderFields | lib/blockchain/chainentry.js:255-260 | the fields read one after another from the start of a buffer are the fields of its first 80 bytes |
| Chain.EncodeDecode | lib/blockchain/chainentry.js:222-265 | `fromRaw(toRaw(e))` restores every field of an encodable entry; the hash becomes the hash of the entry's header |
| Chain.DecodeEncodeRaw | lib/blockchain/chainentry.js:222-265 | every 116-byte record is encodable, and it is the encoding of the entry decoded from it |
| Chain.BlockEntryRoundTrip | lib/blockchain/chainentry.js:193-265 | an entry built from a block and stored comes back with every field the same, its hash included |
| Chain.ChainworkBound | lib/blockchain/chainentry.js:262 | 32 little-endian bytes hold a chainwork below `MAX_CHAINWORK` |
| Chain.ReadHeader | lib/blockchain/chainentry.js:255-260 | the six sequential reads consume 80 bytes and yield the header those bytes serialize |
| Chain.ReadEntry | lib/blockchain/chainentry.js:245-262 | each read of `fromRaw` succeeds exactly when the buffer reaches its end byte (80, 84, 116), and then yields the hash, header, height or chainwork of those bytes |
| Chain.IsU32Range | lib/blockchain/chainentry.js:77-83 | `(x >>> 0) === x` holds exactly for 0 ≤ x < 2^32 |
| Chain.OptionsEntry | lib/blockchain/chainentry.js:86-94 | valid options give an entry with the same numeric fields, and an absent chainwork becomes zero |
| Chain.ChainEntry.constructor | lib/blockchain/chainentry.js:53-62 | a new entry has version 1, zero hashes and every number zero |
| Chain.ChainEntry.FromOptions | lib/blockchain/chainentry.js:74-97 | succeeds exactly when options are present and every number is an unsigned 32-bit integer, then holds the options' entry; on failure nothing changes |
| Chain.ChainEntry.FromBlock | lib/blockchain/chainentry.js:193-204 | the entry holds the block's fields and hash, the height after `prev` (0 without one), and `getChainwork(prev)` |
| Chain.ChainEntry.ToRaw | lib/blockchain/chainentry.js:222-237 | the rendered buffer is exactly the 116-byte encoding of the entry |
| Chain.ChainEntry.FromRaw | lib/blockchain/chainentry.js:245-265 | succeeds exactly on 116 bytes or more, then holds the decoded entry; a shorter buffer fails after assigning the fields it could read, and leaves the others unchanged |
| Chain.ChainEntry.HasUnknown | lib/blockchain/chainentry.js:156-165 | the definition of `hasUnknown`: the masked top bits equal `VERSION_TOP_BITS` and the version shares a bit with the unknown-bits mask; its meaning is `HasUnknownMeaning` |
| Chain.ChainEntry.HasBit | lib/blockchain/chainentry.js:173-175 | `hasBit(bit)` is `consensus.hasBit` of the entry's version; its meaning is `EntryHasBit` |
| Chain.HasUnknownMeaning | lib/blockchain/chainentry.js:156-165 | `hasUnknown` holds exactly when the top version bits are 001 and the version shares a set bit with the network's unknown bits |
| Chain.EntryHasBit | lib/blockchain/chainentry.js:173-175 | an entry signals a bit exactly as `consensus.hasBit` reads its version |
| Mine.CompareAt | lib/mining/mine.js:54-65 | two equal-length buffers that agree above byte i compare as little-endian numbers as their bytes at i do |
| Mine.Rcmp | lib/mining/mine.js:54-65 | `rcmp` is the three-way comparison of its arguments read as little-endian numbers |
| Mine.WithNonce | lib/mining/mine.js:27 | writing the nonce keeps the header's length |
| Mine.WithNonceFrame | lib/mining/mine.js:27 | writing the nonce changes bytes 76..79 only, which then hold the nonce little-endian |
| Mine.WithNonceTwice | lib/mining/mine.js:39 | writing the nonce twice leaves the second nonce |
| Mine.FirstHit | lib/mining/mine.js:22-43 | the search of `lo..hi` returns -1 or a nonce of the range |
| Mine.FirstHitLeast | lib/mining/mine.js:22-43 | the search result is the least nonce of the range that meets the target, and −1 exactly when none does |
| Mine.FirstHitSplit | lib/mining/mine.js:22-43 | searching lo..hi is searching lo..mid, then mid..hi if that fails; a shared endpoint changes nothing |
| Mine.FirstHitFrame | lib/mining/mine.js:22-43 | the search depends on no byte of the nonce field |
| Mine.FirstHitAdvance | lib/mining/mine.js:30-39 | helper, one step of the definition: one loop step either returns the nonce or continues the search from the next one |
| Mine.WriteNonce | lib/mining/mine.js:27 | the buffer becomes the header carrying the nonce |
| Mine.Attempt | lib/mining/mine.js:30-39 | a hit leaves the buffer unchanged and the search result equal to the nonce; a miss writes the next nonce |
| Mine.Mine | lib/mining/mine.js:22-43 | `mine` returns the first nonce of min..max whose header meets the target, or −1; it writes only the nonce field, which ends holding the last nonce tried (one past `max` on failure) |
| CpuMiner.IntervalValue | lib/mining/cpuminer.js:430 | `INTERVAL` is `0xffffffff / 1500 \| 0` = 2863311, and 1500 windows end just below 0xffffffff |
| CpuMiner.WindowSchedule | lib/mining/cpuminer.js:288-301 | the window loop runs window k exactly when k < 1500; windows are contiguous, sharing endpoints; the last nonce searched is 4294966500 |
| CpuMiner.HitsOfPair | lib/mining/cpuminer.js:462-470 | helper, one step of the definition: a family of window results gives the window results of the header for each pair of extra nonces |
| CpuMiner.HeaderHitsAre | lib/mining/cpuminer.js:462-470 | the window results computed from the template's headers are such a family |
| CpuMiner.WindowsStep | lib/mining/cpuminer.js:292-301 | helper, one step of the definition: a failed window moves the search and the report count on by one |
| CpuMiner.WindowsHit | lib/mining/cpuminer.js:294-295 | helper, one step of the definition: a window that hits ends the search with its nonce and no further report |
| CpuMiner.WindowsFirstHit | lib/mining/cpuminer.js:282-304 | the window search from window k equals the search of the whole range from k·INTERVAL to 1500·INTERVAL |
| CpuMiner.WindowsLeast | lib/mining/cpuminer.js:282-304 | `findNonce` gives the least nonce of 0..4294966500 meeting the target, or −1 exactly when none does |
| CpuMiner.FailedWindowsMeaning | lib/mining/cpuminer.js:282-304 | the failed windows are exactly those before the hit; when all fail, the result is −1 |
| CpuMiner.NextExtraCount | lib/mining/cpuminer.js:522-527 | `updateNonce` adds one to the counter nonce1·2^32+nonce2, keeps nonce2 a word, and carries into nonce1 at 2^32 |
| CpuMiner.ExtraPair | lib/mining/cpuminer.js:522-527 | a counter value names exactly one pair whose nonce2 is a word |
| CpuMiner.HashCountCarries | lib/mining/cpuminer.js:544-547 | after `updateNonce`, `getHashes` continues where a full range under the previous extra nonce ended |
| CpuMiner.WindowReportsStep | lib/mining/cpuminer.js:297 | helper, one step of the definition: one more failed window appends its report, which carries that window's `max` |
| CpuMiner.AsyncWindowsQuiet | lib/mining/cpuminer.js:313-345 | with no interference, the worker search finds what `findNonce` finds and reports the same windows |
| CpuMiner.AsyncWindowsCancelled | lib/mining/cpuminer.js:323-331 | on a destroyed job, the worker search returns the result of the window in flight and sends no report |
| CpuMiner.AsyncWindowsGaveUp | lib/mining/cpuminer.js:323-331 | a worker search that returns −1 before the last window has seen the job destroyed, and a destroyed job stays destroyed |
| CpuMiner.AsyncWindowsMissed | lib/mining/cpuminer.js:313-345 | a nonce the worker search returns is the one `findNonce` returns; −1 on a live job means every window failed |
| CpuMiner.FindOutcomeMeaning | lib/mining/cpuminer.js:313-345 | with or without workers, any nonce `findNonceAsync` returns is `findNonce`'s nonce; −1 on a live job means all 1500 windows failed and were reported |
| CpuMiner.FindOutcomeQuiet | lib/mining/cpuminer.js:313-345 | on a live job with no interference, `findNonceAsync` is `findNonce` |
| CpuMiner.RetryReportsStep | lib/mining/cpuminer.js:357-366 | helper, one step of the definition: one more failed round appends its 1500 window reports and the nonce-0 report |
| CpuMiner.MissedStep | lib/mining/cpuminer.js:357-366 | a failed search under the current extra nonces extends the run of failed counter values by one |
| CpuMiner.MissedNoHit | lib/mining/cpuminer.js:357-366 | no nonce of 0..4294966500 meets the target under any extra nonce the retry loop has moved past |
| CpuMiner.CpuJob.GetHashes | lib/mining/cpuminer.js:544-547 | the definition of `getHashes(nonce)`: the counter nonce1·2^32+nonce2 times 0xffffffff, plus the nonce (computed exactly); its meaning is `HashCountCarries` |
| CpuMiner.CpuJob.constructor | lib/mining/cpuminer.js:445-454 | a new job is live, uncommitted, started now, with both extra nonces zero |
| CpuMiner.CpuJob.GetHeader | lib/mining/cpuminer.js:462-470 | a fresh buffer with the template's header for the current extra nonces |
| CpuMiner.CpuJob.UpdateNonce | lib/mining/cpuminer.js:522-527 | the extra-nonce counter goes up by one with the carry, and nothing else changes |
| CpuMiner.CpuJob.Destroy | lib/mining/cpuminer.js:533-536 | the assertion fails exactly on a job already destroyed; afterwards the job is destroyed and nothing else changes |
| CpuMiner.CpuJob.Commit | lib/mining/cpuminer.js:478-490 | the assertion fails exactly on a job already committed; otherwise the commitment carries the extra nonces, the template's time and the nonce; the job ends committed |
| CpuMiner.CpuMiner.constructor | lib/mining/cpuminer.js:28-44 | a new miner is stopped, holds no job and has sent no reports; `workers` says whether a worker pool is present |
| CpuMiner.CpuMiner.SendStatus | lib/mining/cpuminer.js:406-421 | appends one report carrying the nonce and `getHashes(nonce)` |
| CpuMiner.CpuMiner.SearchWindow | lib/mining/cpuminer.js:293 | `mine` on the job's buffer returns the window's first hit and leaves all but the nonce field as it was |
| CpuMiner.CpuMiner.FindWindow | lib/mining/cpuminer.js:293-297 | one window returns its result, and a failed window is followed by exactly one report carrying its `max` |
| CpuMiner.CpuMiner.FindNonce | lib/mining/cpuminer.js:282-304 | `findNonce` returns the window search's nonce, after one report for each failed window before the one that hits |
| CpuMiner.CpuMiner.WorkerMine | lib/mining/cpuminer.js:324 | a worker's `mine` on a copy of the header returns the first hit of the range |
| CpuMiner.CpuMiner.FindWindowAsync | lib/mining/cpuminer.js:324-331 | one worker window returns its result and records any interference; it stops on a hit or a destroyed job, and otherwise sends one report |
| CpuMiner.CpuMiner.FindNonceAsync | lib/mining/cpuminer.js:313-345 | the nonce, the destroyed flag and the reports are those of `FindOutcome`: `findNonce` without workers, the worker search with them |
| CpuMiner.CpuMiner.NextRound | lib/mining/cpuminer.js:363-365 | `updateNonce` moves the counter on by one, then one report with nonce 0 under the new counter |
| CpuMiner.CpuMiner.MineRound | lib/mining/cpuminer.js:357-366 | one round returns `findNonce`'s nonce; on failure the counter moves on by one and the round's 1501 reports are appended |
| CpuMiner.CpuMiner.MineAsyncRound | lib/mining/cpuminer.js:382-395 | one async round returns `findNonceAsync`'s outcome; only a failure on a live job moves the counter on, and only after all windows failed |
| CpuMiner.CpuMiner.Retry | lib/mining/cpuminer.js:357-366 | the retry loop stops under the first counter value whose search hits, every earlier value having failed, with the reports of all rounds so far |
| CpuMiner.CpuMiner.Mine | lib/mining/cpuminer.js:353-369 | `mine(job)` sets `start`, commits `findNonce`'s nonce under the first counter value that hits (every earlier one failed), with that header's nonce; a second commit fails the assertion |
| CpuMiner.CpuMiner.RetryAsync | lib/mining/cpuminer.js:382-395 | the async retry loop stops with a nonce, or cancels on a destroyed job, in the round whose outcome that is; every earlier round failed on a live job |
| CpuMiner.CpuMiner.MineAsync | lib/mining/cpuminer.js:378-398 | `mineAsync(job)` returns `null` exactly when a round ended on a destroyed job without a nonce; otherwise it commits `findNonce`'s nonce under the first counter value that hits |
| CpuMiner.CpuMiner.NotifyEntry | lib/mining/cpuminer.js:263-274 | a running miner destroys and drops a job older than ten seconds; the assertion fails exactly on a job already destroyed; a live job keeps the miner consistent |
| CpuMiner.CpuMiner.OnTip | lib/mining/cpuminer.js:52-60 | a tip on the job's parent destroys the job (failing on a destroyed one) but leaves it as the current job (see Findings) |
| CpuMiner.CpuMiner.OnTipClearing | lib/mining/cpuminer.js:52-60 | the corrected handler also drops the stale job, so the current job stays absent or live (see Findings) |
| CpuMiner.StaleTipThenEntry | lib/mining/cpuminer.js:52-60 | a stale tip, then a mempool entry more than ten seconds into the job: `notifyEntry` fails the destroy assertion |
| CpuMiner.StaleTipThenEntryClearing | lib/mining/cpuminer.js:52-60 | the same events with the corrected handler both succeed |
| Framer.Frame | lib/workers/framer.js:26-42 | the frame of a payload is ten bytes longer than its body |
| Framer.FrameLayout | lib/workers/framer.js:26-42 | the frame is 10 + size bytes long: id in bytes 0..3, command in byte 4, size in bytes 5..8 (equal to the length minus 10 below 2^32), then the body and 0x0a |
| Framer.ParseFrameOfFrame | lib/workers/framer.js:26-42 | a frame reads back as its payload whenever the body is shorter than 2^32 bytes |
| Framer.FrameOfParseFrame | lib/workers/framer.js:26-42 | any buffer that reads as a payload is exactly that payload's frame |
| Framer.Packet | lib/workers/framer.js:26-42 | `packet` renders a fresh buffer that is exactly the frame: it writes id and command, skips the size field, writes the body and 0x0a, then patches `msg.length - 10` at offset 5 |
| Bufio.WriteUInt32LE | lib/mining/mine.js:27 | `writeUInt32LE(value, offset, true)` replaces four bytes at the offset with the unsigned word of the value, little-endian |

## Left out

- `getHashes` uses float arithmetic, and `getRate`, the logger in `sendStatus` and the `status` event are left out. The hash count is computed exactly; the float result agrees with it below 2^53. The rate needs the clock.
- `util.now()` is a parameter (`now`) of the methods that read it.
- CpuMiner.CpuMiner.Mine: the unbounded `for (;;)` retry loop runs for at most `rounds` rounds and reports `OutOfRounds` when the bound is reached. What the loop does after that many extra nonces is not modelled.
- CpuMiner.CpuMiner.MineAsync: the same `rounds` bound on its `for (;;)` loop.
- CpuMiner.CpuMiner.FindNonceAsync: concurrency is left out. Another event destroying the job while a window is at a worker is an oracle, `interfere`. The oracle says nothing of windows past its end, and nothing of rounds past the end of `Round`'s sequence.
- The worker processes, the worker pool and the thread boundary of `workers.mine` are left out. `WorkerMine` runs `mine` on a copy of the header.
- The block template (`attempt`) is abstract and given as a `Template`:
  - `getRoot`/`getHeader` become a header function of the extra nonces;
  - `refresh` is left out;
  - `getProof`/`commit` stop at the `Commitment` they are built from. Block assembly is not part of this model.
- The ghost parameters `hits`/`hitsOf` are the specification device for the window results. `HeaderHitsAre` proves that the results computed from the template qualify.
- Hashing (`hash256.digest`) is a function parameter, not SHA-256.
- `_start`, `start`, `stop`, `_stop`, `wait`, `stopJob`, `createJob`, `mineBlock`, the worker `mine` event plumbing and the `init` registration itself are left out. Only the `tip` handler is modelled.
- In the two scenario methods, the miner's `running` flag and current job are set directly. `_start` is not modelled.
- `CPUJob.mine`/`mineAsync` only delegate to the miner and are not modelled separately. The same goes for the static `fromOptions`/`fromBlock`/`fromRaw` wrappers and the `new ChainEntry(options)` path, which is `constructor` followed by `FromOptions`.
- `chainentry.js` is modelled partly:
  - `rhash`, `toJSON`, `fromJSON`, inspection methods, `getAncestor`-style chain navigation and database access are left out;
  - the `Buffer.isBuffer` checks of `fromOptions` become the `Hash` type (32 bytes), so a hash buffer of another length is not modelled;
  - the `BN.isBN(chainwork)` check becomes `Option<nat>`.
- Chain.ChainEntry.ToRaw: requires a height below 2^32 and a chainwork below 2^256 (`Encodable`). `writeU32` and `toArrayLike(…, 32)` would throw outside those ranges; the model does not describe the throw.
- A chainwork is a `nat`. Negative `BN` chainwork, which no `getChainwork` produces, is not modelled.
- BN's `ushrn` and `byteLength` on negative numbers are modelled on the magnitude. BN keeps the sign separately, so this is how the library behaves.
- Mine.Mine: requires `0 <= min`. Every caller passes non-negative window bounds. A negative `min` would make `writeUInt32LE` throw in strict Node versions, and that throw is not modelled.
- Mine.Mine: requires a 32-byte target whenever the range is non-empty, and Mine.Attempt always does. This stands for the `assert(a.length === b.length)` of `rcmp` (lib/mining/mine.js:55) against the 32-byte hash; the assertion failure on a target of another length is not modelled.
- `writeUInt32LE(…, true)` is modelled as wrapping to 32 bits. No nonce written by the miner exceeds 4294966501, so the wrap never occurs on the miner's paths.
- The `bufio` library is external. `BufferWriter` and `BufferReader` model only what its call sites here rely on: cursor, sequential writes and reads, failure on a short read.
- Framer.Packet: `payload.toWriter` is assumed to write exactly `getSize()` bytes, given as the payload's `body`. A payload whose `toWriter` disagrees with its `getSize` is not modelled.
- Framer.FrameLayout: the size field wraps for bodies of 2^32 bytes or more, as `writeUInt32LE` does.
- Framer.ParseFrame is a reference reader, the partner of `Packet`. The framer's parser class is not part of this model.
- The grouping of the loops into `FindWindow`, `MineRound`, `Retry` and their async counterparts is the model's own. It follows the source's statements in order.
- Consensus.ToCompactPositive: requires a number below 2^(8·126), so that the exponent fits in seven bits and the top byte holds it unreduced. Consensus.ToCompactWrap and Consensus.ToCompactSignClear cover every positive number: the top byte then holds the exponent modulo 256, which differs from the exponent from 255 bytes on.
- Consensus.CompactRoundTrip: proved for positive numbers below 2^(8·126) only; the round trip of longer numbers, whose exponent byte eventually wraps, is not stated.
- Consensus.ToCompactIdempotent: proved for positive numbers below 2^(8·125) only, for the same reason.
- Consensus.SignMagnitudeRoundTrip: proved for magnitudes below 2^(8·126) only, for the same reason.
- The `stopping` field is set by the constructor only. `_start` and `stop`, which read and write it (lib/mining/cpuminer.js:104-159, 203-205), are left out.
- The `wait` helper is left out with the rest of the stop protocol. Its `assert(!this.stpoJob)` (lib/mining/cpuminer.js:227) misspells the field, so it never fails and checks nothing.
- `INTERVAL` appears as the literal 2863311 in `WindowMin`/`WindowMax`. `IntervalValue` proves that it equals `0xffffffff / 1500 | 0`.

## Findings

| source | as written | input that shows it | evidently intended | confidence | as-written member | corrected member |
|---|---|---|---|---|---|---|
| lib/protocol/consensus.js:283-299 | for a negative number `mantissa` is negative when `mantissa & 0x800000` tests it, so it is shifted down a byte and `(exponent << 24) \| mantissa` fills the exponent byte with ones | `toCompact(-1)` gives 0xffffff00, which decodes to a negative number of 255 bytes, not −1 | encode the magnitude, then set the sign bit (as the C++ reference client does), so `fromCompact(toCompact(n)) == n` for −2^23 < n < 0 | not executed | Consensus.ToCompactMinusOne | Consensus.ToCompactSignMagnitude (proved by Consensus.SignMagnitudeRoundTrip) |
| lib/mining/cpuminer.js:52-60 | the `tip` handler destroys the stale job but leaves it in `this.job` | a tip on the job's parent, then `notifyEntry` more than ten seconds after the job started: `destroy` runs a second time and its assertion fails | clear `this.job` after destroying it, as `notifyEntry` does, so that the current job is always absent or live | not executed | CpuMiner.CpuMiner.OnTip (with CpuMiner.StaleTipThenEntry) | CpuMiner.CpuMiner.OnTipClearing (with CpuMiner.StaleTipThenEntryClearing) |
