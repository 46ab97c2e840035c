/** The CPU miner: a job that holds a block template and its extra-nonce
    counters, and a miner that searches the 32-bit nonce space of the job's
    header window by window, retrying with the next extra nonce when the
    whole range fails. The block template, the worker pool, the clock and
    the status sink are parameters of the model. */
module CpuMiner {
  import opened Bytes
  import opened Js
  import M = Mine

  /** An 80-byte serialized block header. */
  type Header80 = s: seq<byte> | |s| == 80 witness seq(80, _ => 0)

  /** The block template a job mines on (`attempt`): the tip it extends, the
      target, the timestamp, and the header it serializes for a given pair of
      extra nonces (with its nonce field zero). */
  datatype Template = Template(prevBlock: Hash, target: Hash, time: u32, header: (nat, nat) -> Header80)

  /** What `attempt.getProof(n1, n2, time, nonce)` is built from; the block
      that `attempt.commit` assembles from it is not part of this model. */
  datatype Commitment = Commitment(nonce1: nat, nonce2: nat, time: u32, nonce: int)

  /** A status report: the nonce passed to `sendStatus` and the hash count
      it reports. */
  datatype Status = Status(nonce: int, hashes: int)

  // ---------------------------------------------------------------------
  // The window schedule

  /** `CPUMiner.INTERVAL`, the width of one window. */
  const INTERVAL: int := 2863311

  /** The number of windows `findNonce` searches before `max` passes
      `0xffffffff`. */
  const WINDOWS: nat := 1500

  /** `INTERVAL` is `0xffffffff / 1500 | 0`, and 1500 windows end just
      below `0xffffffff`. */
  lemma IntervalValue()
    ensures INTERVAL == ToInt32(0xffff_ffff / 1500)
    ensures WINDOWS * INTERVAL == 4294966500 < 0xffff_ffff < (WINDOWS + 1) * INTERVAL
  {
    ToInt32Small(0xffff_ffff / 1500);
  }

  /** The first nonce of window `k`: `k * INTERVAL`. */
  function WindowMin(k: int): int
  {
    k * 2863311
  }

  /** The last nonce of window `k`, which is also the first of window
      `k + 1`: `(k + 1) * INTERVAL`. */
  function WindowMax(k: int): int
  {
    (k + 1) * 2863311
  }

  /** The loop of `findNonce` runs window `k` exactly when `k < 1500`; each
      window starts where the one before it ended; the last nonce searched is
      `1500 * INTERVAL`, below `0xffffffff`. */
  lemma WindowSchedule(k: nat)
    ensures WindowMax(k) <= 0xffff_ffff <==> k < WINDOWS
    ensures k > 0 ==> WindowMin(k) == WindowMax(k - 1)
    ensures 0 <= WindowMin(k) < WindowMax(k)
    ensures WindowMin(k + 1) == WindowMin(k) + INTERVAL && WindowMax(k + 1) == WindowMax(k) + INTERVAL
    ensures WindowMax(WINDOWS - 1) == 4294966500 < 0xffff_ffff
  {
    IntervalValue();
  }

  // ---------------------------------------------------------------------
  // Window results

  /** `hits[k]` is what `mine` returns on window `k` of `header`, for each of
      the 1500 windows. */
  ghost predicate HitsAre(hits: seq<int>, header: Header80, target: Hash, hash256: seq<byte> -> Hash)
  {
    |hits| == WINDOWS &&
    forall k: nat {:trigger M.FirstHit(header, target, WindowMin(k), WindowMax(k), hash256)} ::
      k < WINDOWS ==> hits[k] == M.FirstHit(header, target, WindowMin(k), WindowMax(k), hash256)
  }

  /** `hitsOf(n1, n2)` are the window results of the template's header for
      the extra nonces `(n1, n2)`. */
  ghost predicate AllHitsAre(hitsOf: (nat, nat) -> seq<int>, attempt: Template, hash256: seq<byte> -> Hash)
  {
    forall n1: nat, n2: nat :: HitsAre(hitsOf(n1, n2), attempt.header(n1, n2), attempt.target, hash256)
  }

  lemma HitsOfPair(hitsOf: (nat, nat) -> seq<int>, attempt: Template, hash256: seq<byte> -> Hash, n1: nat, n2: nat)
    requires AllHitsAre(hitsOf, attempt, hash256)
    ensures HitsAre(hitsOf(n1, n2), attempt.header(n1, n2), attempt.target, hash256)
  {
  }

  /** The window results of every header of a template. */
  function HeaderHits(attempt: Template, hash256: seq<byte> -> Hash): (nat, nat) -> seq<int>
  {
    (n1: nat, n2: nat) =>
      seq(WINDOWS, k requires 0 <= k => M.FirstHit(attempt.header(n1, n2), attempt.target, WindowMin(k), WindowMax(k), hash256))
  }

  /** `HeaderHits` is a family of window results, so the contracts stated
      over any such family hold of it. */
  lemma HeaderHitsAre(attempt: Template, hash256: seq<byte> -> Hash)
    ensures AllHitsAre(HeaderHits(attempt, hash256), attempt, hash256)
  {
  }

  /** The nonce the window loop returns from window `k` on, given the result
      `hits[j]` of each window `j`. */
  function Windows(hits: seq<int>, k: nat): int
    decreases |hits| - k
  {
    if k >= |hits| then -1
    else if hits[k] != -1 then hits[k]
    else Windows(hits, k + 1)
  }

  /** The number of windows from `k` on that fail before one hits, each
      followed by a status report. */
  function FailedWindows(hits: seq<int>, k: nat): nat
    decreases |hits| - k
  {
    if k >= |hits| || hits[k] != -1 then 0
    else 1 + FailedWindows(hits, k + 1)
  }

  /** One failed window moves both the search and the count on by one. */
  lemma WindowsStep(hits: seq<int>, k: nat)
    requires k < |hits| && hits[k] == -1
    ensures Windows(hits, k) == Windows(hits, k + 1)
    ensures FailedWindows(hits, k) == 1 + FailedWindows(hits, k + 1)
  {
  }

  /** A window that hits ends the search with its nonce. */
  lemma WindowsHit(hits: seq<int>, k: nat)
    requires k < |hits| && hits[k] != -1
    ensures Windows(hits, k) == hits[k] && FailedWindows(hits, k) == 0
  {
  }

  /** The window search is the search of the whole range `0..1500*INTERVAL`:
      the shared endpoints change nothing. */
  lemma {:induction false} WindowsFirstHit(hits: seq<int>, header: Header80, target: Hash,
                                           hash256: seq<byte> -> Hash, k: nat)
    requires HitsAre(hits, header, target, hash256) && k < WINDOWS
    ensures Windows(hits, k) == M.FirstHit(header, target, WindowMin(k), WindowMax(WINDOWS - 1), hash256)
    decreases WINDOWS - k
  {
    WindowSchedule(k);
    if k + 1 < WINDOWS {
      WindowsFirstHit(hits, header, target, hash256, k + 1);
      WindowSchedule(k + 1);
      M.FirstHitSplit(header, target, WindowMin(k), WindowMax(k), WindowMax(WINDOWS - 1), hash256);
    } else {
      assert hits[k] == M.FirstHit(header, target, WindowMin(k), WindowMax(k), hash256);
    }
  }

  /** `findNonce` returns the least nonce of `0..1500*INTERVAL` whose header
      meets the target, or -1 when there is none; nonces above
      `1500*INTERVAL` are never tried. */
  lemma WindowsLeast(hits: seq<int>, header: Header80, target: Hash, hash256: seq<byte> -> Hash)
    requires HitsAre(hits, header, target, hash256)
    ensures var r := Windows(hits, 0);
      (r == -1 <==> forall n :: 0 <= n <= 4294966500 ==> !M.Hit(header, target, n, hash256)) &&
      (r != -1 ==> 0 <= r <= 4294966500 && M.Hit(header, target, r, hash256) &&
                   forall n :: 0 <= n < r ==> !M.Hit(header, target, n, hash256))
  {
    WindowsFirstHit(hits, header, target, hash256, 0);
    WindowSchedule(0);
    M.FirstHitLeast(header, target, 0, WindowMax(WINDOWS - 1), hash256);
  }

  /** The failed windows are exactly the windows before the one that hits;
      when all of them fail the search returns -1. */
  lemma {:induction false} FailedWindowsMeaning(hits: seq<int>, k: nat)
    requires k <= |hits|
    ensures var f := FailedWindows(hits, k);
      k + f <= |hits| &&
      (forall j: nat :: k <= j < k + f ==> hits[j] == -1) &&
      (k + f < |hits| ==> Windows(hits, k) == hits[k + f] != -1) &&
      (k + f == |hits| ==> Windows(hits, k) == -1)
    decreases |hits| - k
  {
    if k < |hits| && hits[k] == -1 {
      FailedWindowsMeaning(hits, k + 1);
    }
  }

  // ---------------------------------------------------------------------
  // Extra nonces, hash counts and status reports

  /** The extra-nonce pair read as one counter. */
  function Extra(n1: nat, n2: nat): nat
  {
    n1 * 0x1_0000_0000 + n2
  }

  /** The pair `updateNonce` moves to: `nonce2` counts up and carries into
      `nonce1` when it reaches `0x100000000`. */
  function NextExtra(n1: nat, n2: nat): (nat, nat)
  {
    if n2 + 1 == TWO_32 then (n1 + 1, 0) else (n1, n2 + 1)
  }

  /** `updateNonce` adds one to the counter and keeps `nonce2` a word. */
  lemma NextExtraCount(n1: nat, n2: nat)
    requires n2 < TWO_32
    ensures NextExtra(n1, n2).1 < TWO_32
    ensures Extra(NextExtra(n1, n2).0, NextExtra(n1, n2).1) == Extra(n1, n2) + 1
    ensures NextExtra(n1, n2).0 == n1 + (if n2 + 1 == TWO_32 then 1 else 0)
  {
  }

  /** A counter value names exactly one pair with `nonce2` a word. */
  lemma ExtraPair(n1: nat, n2: nat)
    requires n2 < TWO_32
    ensures Extra(n1, n2) / TWO_32 == n1 && Extra(n1, n2) % TWO_32 == n2
  {
    DivUnique(Extra(n1, n2), TWO_32, n1, n2);
  }

  /** `getHashes(nonce)` under counter value `e`: every earlier extra nonce
      counted as a full range of `0xffffffff` hashes, plus `nonce`. Computed
      exactly; the source's floating-point arithmetic agrees below 2^53. */
  function HashCount(e: nat, nonce: int): int
  {
    e * 0xffff_ffff + nonce
  }

  /** After `updateNonce` the count restarts where a full range under the
      previous extra nonce ends. */
  lemma HashCountCarries(n1: nat, n2: nat, nonce: int)
    requires n2 < TWO_32
    ensures HashCount(Extra(NextExtra(n1, n2).0, NextExtra(n1, n2).1), nonce) == HashCount(Extra(n1, n2), nonce + 0xffff_ffff)
  {
    NextExtraCount(n1, n2);
  }

  /** The report `sendStatus(job, nonce)` sends while the job's counter is
      `e`. */
  function StatusAt(e: nat, nonce: int): Status
  {
    Status(nonce, HashCount(e, nonce))
  }

  /** The reports of `count` failed windows: each carries that window's `max`. */
  function WindowReports(e: nat, count: nat): seq<Status>
  {
    seq(count, j => StatusAt(e, WindowMax(j)))
  }

  lemma WindowReportsStep(e: nat, k: nat)
    ensures WindowReports(e, k + 1) == WindowReports(e, k) + [StatusAt(e, WindowMax(k))]
  {
  }

  // ---------------------------------------------------------------------
  // The worker search

  /** Whether the job was destroyed by another event while window `k` was
      at the worker; the oracle says nothing of windows past its end. */
  predicate Interfered(interfere: seq<bool>, k: nat)
  {
    k < |interfere| && interfere[k]
  }

  /** The outcome of one full search: the nonce, the number of status
      reports sent, and whether the job is destroyed at the end. */
  datatype WindowOutcome = WindowOutcome(nonce: int, failed: nat, destroyed: bool)

  /** The worker search from window `k` on. `Interfered(interfere, k)` says whether the
      job was destroyed by another event while window `k` was at the worker;
      a failed window is followed by the `job.destroyed` check. */
  function AsyncWindows(hits: seq<int>, destroyed: bool, interfere: seq<bool>, k: nat): WindowOutcome
    decreases |hits| - k
  {
    if k >= |hits| then WindowOutcome(-1, 0, destroyed)
    else
      var d := destroyed || Interfered(interfere, k);
      if hits[k] != -1 then WindowOutcome(hits[k], 0, d)
      else if d then WindowOutcome(-1, 0, d)
      else
        var o := AsyncWindows(hits, d, interfere, k + 1);
        o.(failed := o.failed + 1)
  }

  /** `findNonceAsync`: the synchronous search without workers, else the
      worker search. */
  function FindOutcome(hits: seq<int>, workers: bool, destroyed: bool, interfere: seq<bool>): WindowOutcome
  {
    if !workers then WindowOutcome(Windows(hits, 0), FailedWindows(hits, 0), destroyed)
    else AsyncWindows(hits, destroyed, interfere, 0)
  }

  /** Without interference the worker search finds what `findNonce` finds
      and reports the same windows. */
  lemma {:induction false} AsyncWindowsQuiet(hits: seq<int>, interfere: seq<bool>, k: nat)
    requires forall j :: !Interfered(interfere, j)
    ensures AsyncWindows(hits, false, interfere, k) == WindowOutcome(Windows(hits, k), FailedWindows(hits, k), false)
    decreases |hits| - k
  {
    if k < |hits| && hits[k] == -1 {
      AsyncWindowsQuiet(hits, interfere, k + 1);
    }
  }

  /** Once the job is destroyed, the worker search stops after the window in
      flight: it returns that window's result and sends no more reports. */
  lemma AsyncWindowsCancelled(hits: seq<int>, interfere: seq<bool>, k: nat)
    requires k < |hits|
    ensures AsyncWindows(hits, true, interfere, k) == WindowOutcome(hits[k], 0, true)
  {
  }

  /** A worker search that returns -1 before the last window has seen the
      job destroyed, and a destroyed job stays destroyed. */
  lemma {:induction false} AsyncWindowsGaveUp(hits: seq<int>, destroyed: bool, interfere: seq<bool>, k: nat)
    requires k <= |hits|
    ensures var o := AsyncWindows(hits, destroyed, interfere, k);
      k + o.failed <= |hits| &&
      (o.nonce == -1 && k + o.failed < |hits| ==> o.destroyed) &&
      (destroyed ==> o.destroyed)
    decreases |hits| - k
  {
    if k < |hits| {
      AsyncWindowsGaveUp(hits, destroyed || Interfered(interfere, k), interfere, k + 1);
    }
  }

  /** Whatever the interference, a nonce the worker search returns is the
      one the window loop finds, and a search that ends with -1 on a live
      job has tried every window. */
  lemma {:induction false} AsyncWindowsMissed(hits: seq<int>, destroyed: bool, interfere: seq<bool>, k: nat)
    requires k <= |hits|
    ensures var o := AsyncWindows(hits, destroyed, interfere, k);
      (o.nonce != -1 ==> o.nonce == Windows(hits, k)) &&
      (o.nonce == -1 && !o.destroyed ==> Windows(hits, k) == -1 && k + o.failed == |hits|)
    decreases |hits| - k
  {
    if k < |hits| && hits[k] == -1 {
      AsyncWindowsMissed(hits, destroyed || Interfered(interfere, k), interfere, k + 1);
    }
  }

  /** `findNonceAsync` returns, if anything, the nonce `findNonce` returns;
      when it returns -1 on a live job, all 1500 windows failed. */
  lemma FindOutcomeMeaning(hits: seq<int>, workers: bool, destroyed: bool, interfere: seq<bool>)
    ensures var o := FindOutcome(hits, workers, destroyed, interfere);
      (o.nonce != -1 ==> o.nonce == Windows(hits, 0)) &&
      (o.nonce == -1 && !o.destroyed ==> Windows(hits, 0) == -1 && o.failed == |hits|)
  {
    FailedWindowsMeaning(hits, 0);
    AsyncWindowsMissed(hits, destroyed, interfere, 0);
  }

  /** On a live job and with no interference, `findNonceAsync` is
      `findNonce`, with or without workers. */
  lemma FindOutcomeQuiet(hits: seq<int>, workers: bool, interfere: seq<bool>)
    requires forall j :: !Interfered(interfere, j)
    ensures FindOutcome(hits, workers, false, interfere) == WindowOutcome(Windows(hits, 0), FailedWindows(hits, 0), false)
  {
    AsyncWindowsQuiet(hits, interfere, 0);
  }

  // ---------------------------------------------------------------------
  // The retry loop

  /** The reports of a round of `mine` or `mineAsync` that fails under
      counter value `e`: one per window, then the report with nonce 0 that
      follows `updateNonce`. */
  function RoundReports(e: nat): seq<Status>
  {
    WindowReports(e, WINDOWS) + [StatusAt(e + 1, 0)]
  }

  /** The reports of `count` failed rounds from counter value `e0` on. */
  function RetryReports(e0: nat, count: nat): seq<Status>
  {
    if count == 0 then [] else RetryReports(e0, count - 1) + RoundReports(e0 + count - 1)
  }

  /** One more failed round adds its reports after those of the rounds
      before it. */
  lemma RetryReportsStep(r0: seq<Status>, mid: seq<Status>, now: seq<Status>, e0: nat, count: nat, e: nat)
    requires mid == r0 + RetryReports(e0, count) && now == mid + RoundReports(e) && e == e0 + count
    ensures now == r0 + RetryReports(e0, count + 1)
  {
  }

  /** The interference oracle of round `round`. */
  function Round(interfere: seq<seq<bool>>, round: nat): seq<bool>
  {
    if round < |interfere| then interfere[round] else []
  }

  /** Every counter value from `e0` up to `e1` failed the whole search. */
  ghost predicate Missed(hitsOf: (nat, nat) -> seq<int>, e0: nat, e1: nat)
  {
    forall e: nat :: e0 <= e < e1 ==> Windows(hitsOf(e / TWO_32, e % TWO_32), 0) == -1
  }

  /** A failed search under `(n1, n2)` extends the failed counter values
      by one. */
  lemma MissedStep(hitsOf: (nat, nat) -> seq<int>, e0: nat, n1: nat, n2: nat)
    requires n2 < TWO_32 && e0 <= Extra(n1, n2) && Missed(hitsOf, e0, Extra(n1, n2))
    ensures Windows(hitsOf(n1, n2), 0) == -1 ==> Missed(hitsOf, e0, Extra(n1, n2) + 1)
  {
    ExtraPair(n1, n2);
  }

  /** No extra nonce is left behind with a hit in it: under every counter
      value the retry loop has moved past, no nonce of `0..1500*INTERVAL`
      meets the target. */
  lemma MissedNoHit(hitsOf: (nat, nat) -> seq<int>, attempt: Template, hash256: seq<byte> -> Hash,
                    e0: nat, e1: nat, e: nat, n: int)
    requires AllHitsAre(hitsOf, attempt, hash256) && Missed(hitsOf, e0, e1)
    requires e0 <= e < e1 && 0 <= n <= 4294966500
    ensures !M.Hit(attempt.header(e / TWO_32, e % TWO_32), attempt.target, n, hash256)
  {
    HitsOfPair(hitsOf, attempt, hash256, e / TWO_32, e % TWO_32);
    WindowsLeast(hitsOf(e / TWO_32, e % TWO_32), attempt.header(e / TWO_32, e % TWO_32), attempt.target, hash256);
  }

  /** The value `mine` and `mineAsync` return: the committed block, nothing
      (`null`, the job was destroyed), the assertion failure of a second
      commit, or the end of the rounds the model allows. */
  datatype MineResult = Block(commitment: Commitment) | Cancelled | CommitFailed | OutOfRounds

  // ---------------------------------------------------------------------
  // Jobs

  class CpuJob {
    const attempt: Template
    var destroyed: bool
    var committed: bool
    var start: int
    var nonce1: nat
    var nonce2: nat

    /** `nonce2` stays a 32-bit word. */
    predicate Valid()
      reads this
    {
      nonce2 < TWO_32
    }

    /** `new CPUJob(miner, attempt)` at time `now`. */
    constructor(attempt: Template, now: int)
      ensures this.attempt == attempt && !destroyed && !committed && start == now
      ensures nonce1 == 0 && nonce2 == 0 && Valid()
    {
      this.attempt := attempt;
      destroyed := false;
      committed := false;
      start := now;
      nonce1 := 0;
      nonce2 := 0;
    }

    /** `getHeader()`: a fresh buffer with the template's header for the
        current extra nonces. */
    method GetHeader() returns (data: array<byte>)
      ensures fresh(data) && data[..] == attempt.header(nonce1, nonce2)
    {
      var h := attempt.header(nonce1, nonce2);
      data := new byte[80](i requires 0 <= i < 80 => h[i]);
    }

    /** `updateNonce()` */
    method UpdateNonce()
      requires Valid()
      modifies this`nonce1, this`nonce2
      ensures Valid() && Extra(nonce1, nonce2) == Extra(old(nonce1), old(nonce2)) + 1
      ensures (nonce1, nonce2) == NextExtra(old(nonce1), old(nonce2))
      ensures destroyed == old(destroyed) && committed == old(committed) && start == old(start)
    {
      nonce2 := nonce2 + 1;
      if nonce2 == TWO_32 {
        nonce2 := 0;
        nonce1 := nonce1 + 1;
      }
    }

    /** `destroy()`: fails (the assertion) on a job already destroyed. */
    method Destroy() returns (ok: bool)
      modifies this`destroyed
      ensures ok <==> !old(destroyed)
      ensures destroyed
      ensures committed == old(committed) && start == old(start)
      ensures nonce1 == old(nonce1) && nonce2 == old(nonce2)
    {
      if destroyed {
        return false;
      }
      destroyed := true;
      ok := true;
    }

    /** `commit(nonce)`: fails (the assertion) on a job already committed. */
    method Commit(nonce: int) returns (c: Option<Commitment>)
      modifies this`committed
      ensures c.Some? <==> !old(committed)
      ensures c.Some? ==> c.value == Commitment(nonce1, nonce2, attempt.time, nonce)
      ensures committed
      ensures destroyed == old(destroyed) && start == old(start)
      ensures nonce1 == old(nonce1) && nonce2 == old(nonce2)
    {
      if committed {
        return None;
      }
      committed := true;
      c := Some(Commitment(nonce1, nonce2, attempt.time, nonce));
    }

    /** `getHashes(nonce)` */
    function GetHashes(nonce: int): int
      reads this
    {
      HashCount(Extra(nonce1, nonce2), nonce)
    }
  }

  // ---------------------------------------------------------------------
  // The miner

  class CpuMiner {
    const hash256: seq<byte> -> Hash
    const workers: bool
    var running: bool
    var stopping: bool
    var job: CpuJob?
    var reports: seq<Status>

    constructor(hash256: seq<byte> -> Hash, workers: bool)
      ensures this.hash256 == hash256 && this.workers == workers
      ensures !running && !stopping && job == null && reports == []
    {
      this.hash256 := hash256;
      this.workers := workers;
      running := false;
      stopping := false;
      job := null;
      reports := [];
    }

    /** The current job is absent or still live. */
    predicate JobLive()
      reads this, job
    {
      job == null || !job.destroyed
    }

    /** `sendStatus(job, nonce)`: records the report. */
    method SendStatus(job: CpuJob, nonce: int)
      modifies this`reports
      ensures reports == old(reports) + [StatusAt(Extra(job.nonce1, job.nonce2), nonce)]
    {
      reports := reports + [Status(nonce, job.GetHashes(nonce))];
    }

    /** `mine(data, target, min, max)` on the job's buffer: the buffer's
        nonce field changes, the rest of the header does not. */
    method SearchWindow(data: array<byte>, ghost header: Header80, target: Hash, min: int, max: int)
      returns (nonce: int)
      requires data.Length == 80 && data[..76] == header[..76]
      requires 0 <= min
      modifies data
      ensures data[..76] == header[..76]
      ensures nonce == M.FirstHit(header, target, min, max, hash256)
    {
      ghost var before := data[..];
      assert before[80..] == header[80..];
      nonce := M.Mine(data, target, min, max, hash256);
      M.FirstHitFrame(before, header, target, min, max, hash256);
      M.WithNonceFrame(before, M.LastNonce(nonce, min, max));
    }

    /** One window of `findNonce`: `mine` on the job's buffer, then the
        status report when it fails. */
    method FindWindow(job: CpuJob, data: array<byte>, ghost header: Header80, min: int, max: int,
                      ghost k: nat, ghost hits: seq<int>)
      returns (nonce: int)
      requires k < WINDOWS && min == WindowMin(k) && max == WindowMax(k)
      requires data.Length == 80 && data[..76] == header[..76]
      requires HitsAre(hits, header, job.attempt.target, hash256)
      modifies data, this`reports
      ensures data[..76] == header[..76]
      ensures nonce == hits[k]
      ensures nonce != -1 ==> reports == old(reports)
      ensures nonce == -1 ==> reports == old(reports) + [StatusAt(Extra(job.nonce1, job.nonce2), max)]
    {
      WindowSchedule(k);
      nonce := SearchWindow(data, header, job.attempt.target, min, max);
      assert hits[k] == M.FirstHit(header, job.attempt.target, WindowMin(k), WindowMax(k), hash256);
      if nonce == -1 {
        SendStatus(job, max);
      }
    }

    /** `findNonce(job)`, where `hits` are the window results of the job's
        header. */
    method FindNonce(job: CpuJob, ghost hits: seq<int>) returns (nonce: int)
      requires HitsAre(hits, job.attempt.header(job.nonce1, job.nonce2), job.attempt.target, hash256)
      modifies this`reports
      ensures nonce == Windows(hits, 0)
      ensures reports == old(reports) + WindowReports(Extra(job.nonce1, job.nonce2), FailedWindows(hits, 0))
    {
      var data := job.GetHeader();
      ghost var header := job.attempt.header(job.nonce1, job.nonce2);
      var interval := INTERVAL;
      var min := 0;
      var max := interval;
      ghost var k: nat := 0;
      nonce := -1;
      WindowSchedule(0);
      while max <= 0xffff_ffff
        invariant k <= WINDOWS && min == WindowMin(k) && max == WindowMax(k)
        invariant data.Length == 80 && data[..76] == header[..76]
        invariant Windows(hits, 0) == Windows(hits, k)
        invariant FailedWindows(hits, 0) == k + FailedWindows(hits, k)
        invariant reports == old(reports) + WindowReports(Extra(job.nonce1, job.nonce2), k)
        invariant nonce == -1
        decreases WINDOWS - k
      {
        WindowSchedule(k);
        nonce := FindWindow(job, data, header, min, max, k, hits);
        if nonce != -1 {
          WindowsHit(hits, k);
          return;
        }
        WindowsStep(hits, k);
        WindowReportsStep(Extra(job.nonce1, job.nonce2), k);
        min := min + interval;
        max := max + interval;
        k := k + 1;
      }
      WindowSchedule(k);
    }

    /** `workers.mine(data, target, min, max)`: a worker runs `mine` on its
        own copy of the header. */
    method WorkerMine(header: seq<byte>, target: Hash, min: int, max: int) returns (nonce: int)
      requires |header| >= 80 && 0 <= min
      ensures nonce == M.FirstHit(header, target, min, max, hash256)
    {
      var data := new byte[|header|](i requires 0 <= i < |header| => header[i]);
      assert data[..] == header;
      nonce := M.Mine(data, target, min, max, hash256);
    }

    /** One window of `findNonceAsync`: the worker's `mine`, during which the
        job may be destroyed, then the `job.destroyed` check and the status
        report. */
    method FindWindowAsync(job: CpuJob, header: Header80, min: int, max: int, k: nat, interfere: seq<bool>,
                           ghost hits: seq<int>)
      returns (nonce: int, stop: bool)
      requires k < WINDOWS && min == WindowMin(k) && max == WindowMax(k)
      requires HitsAre(hits, header, job.attempt.target, hash256)
      modifies this`reports, job`destroyed
      ensures nonce == hits[k]
      ensures job.destroyed == (old(job.destroyed) || Interfered(interfere, k))
      ensures stop <==> nonce != -1 || job.destroyed
      ensures stop ==> reports == old(reports)
      ensures !stop ==> reports == old(reports) + [StatusAt(Extra(job.nonce1, job.nonce2), max)]
    {
      WindowSchedule(k);
      nonce := WorkerMine(header, job.attempt.target, min, max);
      assert hits[k] == M.FirstHit(header, job.attempt.target, WindowMin(k), WindowMax(k), hash256);
      if Interfered(interfere, k) {
        job.destroyed := true;
      }
      stop := nonce != -1 || job.destroyed;
      if !stop {
        SendStatus(job, max);
      }
    }

    /** `findNonceAsync(job)`, where `hits` are the window results of the
        job's header; while a window is at a worker, other events may
        destroy the job, as `interfere` says. */
    method FindNonceAsync(job: CpuJob, interfere: seq<bool>, ghost hits: seq<int>) returns (nonce: int)
      requires HitsAre(hits, job.attempt.header(job.nonce1, job.nonce2), job.attempt.target, hash256)
      modifies this`reports, job`destroyed
      ensures var o := FindOutcome(hits, workers, old(job.destroyed), interfere);
        nonce == o.nonce && job.destroyed == o.destroyed &&
        reports == old(reports) + WindowReports(Extra(job.nonce1, job.nonce2), o.failed)
    {
      if !workers {
        nonce := FindNonce(job, hits);
        return;
      }
      var data := job.GetHeader();
      var header := data[..];
      ghost var d0 := job.destroyed;
      var interval := INTERVAL;
      var min := 0;
      var max := interval;
      var k: nat := 0;
      nonce := -1;
      WindowSchedule(0);
      while max <= 0xffff_ffff
        invariant k <= WINDOWS && min == WindowMin(k) && max == WindowMax(k)
        invariant k > 0 ==> !job.destroyed
        invariant k == 0 ==> job.destroyed == d0
        invariant var o := AsyncWindows(hits, d0, interfere, 0);
          var p := AsyncWindows(hits, job.destroyed, interfere, k);
          o.nonce == p.nonce && o.destroyed == p.destroyed && o.failed == k + p.failed
        invariant reports == old(reports) + WindowReports(Extra(job.nonce1, job.nonce2), k)
        invariant nonce == -1
        decreases WINDOWS - k
      {
        WindowSchedule(k);
        var stop;
        nonce, stop := FindWindowAsync(job, header, min, max, k, interfere, hits);
        if stop {
          return;
        }
        WindowReportsStep(Extra(job.nonce1, job.nonce2), k);
        min := min + interval;
        max := max + interval;
        k := k + 1;
      }
      WindowSchedule(k);
    }

    /** One failed round of `mine` or `mineAsync`: `updateNonce`, then the
        status report with nonce 0. */
    method NextRound(job: CpuJob)
      requires job.Valid()
      modifies this`reports, job`nonce1, job`nonce2
      ensures job.Valid() && (job.nonce1, job.nonce2) == NextExtra(old(job.nonce1), old(job.nonce2))
      ensures Extra(job.nonce1, job.nonce2) == Extra(old(job.nonce1), old(job.nonce2)) + 1
      ensures reports == old(reports) + [StatusAt(Extra(old(job.nonce1), old(job.nonce2)) + 1, 0)]
    {
      job.UpdateNonce();
      SendStatus(job, 0);
    }

    /** One round of `mine`: `findNonce`, then, when it fails, `updateNonce`
        and the status report with nonce 0. */
    method MineRound(job: CpuJob, ghost hits: seq<int>) returns (nonce: int)
      requires job.Valid() && HitsAre(hits, job.attempt.header(job.nonce1, job.nonce2), job.attempt.target, hash256)
      modifies this`reports, job`nonce1, job`nonce2
      ensures job.Valid() && nonce == Windows(hits, 0)
      ensures nonce != -1 ==>
        job.nonce1 == old(job.nonce1) && job.nonce2 == old(job.nonce2) &&
        reports == old(reports) + WindowReports(Extra(job.nonce1, job.nonce2), FailedWindows(hits, 0))
      ensures nonce == -1 ==>
        Extra(job.nonce1, job.nonce2) == Extra(old(job.nonce1), old(job.nonce2)) + 1 &&
        reports == old(reports) + RoundReports(Extra(old(job.nonce1), old(job.nonce2)))
    {
      nonce := FindNonce(job, hits);
      if nonce == -1 {
        FailedWindowsMeaning(hits, 0);
        ghost var e := Extra(job.nonce1, job.nonce2);
        NextRound(job);
        assert reports == (old(reports) + WindowReports(e, WINDOWS)) + [StatusAt(e + 1, 0)];
      }
    }

    /** One round of `mineAsync`: `findNonceAsync`, then, when it fails on a
        live job, `updateNonce` and the status report with nonce 0. */
    method MineAsyncRound(job: CpuJob, interfere: seq<bool>, ghost hits: seq<int>) returns (nonce: int)
      requires job.Valid() && HitsAre(hits, job.attempt.header(job.nonce1, job.nonce2), job.attempt.target, hash256)
      modifies this`reports, job`nonce1, job`nonce2, job`destroyed
      ensures var o := FindOutcome(hits, workers, old(job.destroyed), interfere);
        job.Valid() && nonce == o.nonce && job.destroyed == o.destroyed &&
        (nonce != -1 ==> nonce == Windows(hits, 0)) &&
        (nonce != -1 || job.destroyed ==>
           job.nonce1 == old(job.nonce1) && job.nonce2 == old(job.nonce2) &&
           reports == old(reports) + WindowReports(Extra(job.nonce1, job.nonce2), o.failed)) &&
        (nonce == -1 && !job.destroyed ==>
           Windows(hits, 0) == -1 &&
           Extra(job.nonce1, job.nonce2) == Extra(old(job.nonce1), old(job.nonce2)) + 1 &&
           reports == old(reports) + RoundReports(Extra(old(job.nonce1), old(job.nonce2))))
    {
      FindOutcomeMeaning(hits, workers, job.destroyed, interfere);
      nonce := FindNonceAsync(job, interfere, hits);
      if nonce == -1 && !job.destroyed {
        ghost var e := Extra(job.nonce1, job.nonce2);
        NextRound(job);
        assert reports == (old(reports) + WindowReports(e, WINDOWS)) + [StatusAt(e + 1, 0)];
      }
    }

    /** The `for (;;)` loop of `mine(job)`, for at most `rounds` rounds:
        the search under the first counter value that hits, every value
        before it having failed; `hitsOf` are the window results of the
        template's headers. */
    method Retry(job: CpuJob, rounds: nat, ghost hitsOf: (nat, nat) -> seq<int>) returns (nonce: int)
      requires job.Valid() && AllHitsAre(hitsOf, job.attempt, hash256)
      modifies this`reports, job`nonce1, job`nonce2
      ensures job.Valid()
      ensures var e0 := Extra(old(job.nonce1), old(job.nonce2));
        var e := Extra(job.nonce1, job.nonce2);
        e0 <= e <= e0 + rounds && Missed(hitsOf, e0, e) && (nonce == -1 <==> e == e0 + rounds)
      ensures nonce == -1 ==>
        reports == old(reports) + RetryReports(Extra(old(job.nonce1), old(job.nonce2)), rounds)
      ensures var e0 := Extra(old(job.nonce1), old(job.nonce2));
        var e := Extra(job.nonce1, job.nonce2);
        var hits := hitsOf(job.nonce1, job.nonce2);
        nonce != -1 ==>
          e0 <= e && nonce == Windows(hits, 0) &&
          reports == old(reports) + RetryReports(e0, e - e0) + WindowReports(e, FailedWindows(hits, 0))
    {
      ghost var e0 := Extra(job.nonce1, job.nonce2);
      nonce := -1;
      var round: nat := 0;
      while round < rounds
        invariant round <= rounds && job.Valid()
        invariant Extra(job.nonce1, job.nonce2) == e0 + round && Missed(hitsOf, e0, e0 + round)
        invariant reports == old(reports) + RetryReports(e0, round)
        invariant nonce == -1
        decreases rounds - round
      {
        ghost var hits := hitsOf(job.nonce1, job.nonce2);
        HitsOfPair(hitsOf, job.attempt, hash256, job.nonce1, job.nonce2);
        MissedStep(hitsOf, e0, job.nonce1, job.nonce2);
        ghost var mid := reports;
        ghost var e := Extra(job.nonce1, job.nonce2);
        nonce := MineRound(job, hits);
        if nonce != -1 {
          return;
        }
        RetryReportsStep(old(reports), mid, reports, e0, round, e);
        round := round + 1;
      }
    }

    /** `mine(job)` at time `now`, for at most `rounds` full searches: the
        retry loop, then the commit of the nonce it found. */
    method Mine(job: CpuJob, now: int, rounds: nat, ghost hitsOf: (nat, nat) -> seq<int>) returns (r: MineResult)
      requires job.Valid() && AllHitsAre(hitsOf, job.attempt, hash256)
      modifies this`reports, job`start, job`nonce1, job`nonce2, job`committed
      ensures job.Valid() && job.start == now && job.destroyed == old(job.destroyed)
      ensures var e0 := Extra(old(job.nonce1), old(job.nonce2));
        var e := Extra(job.nonce1, job.nonce2);
        e0 <= e <= e0 + rounds && Missed(hitsOf, e0, e) && (r == OutOfRounds <==> e == e0 + rounds)
      ensures r == OutOfRounds ==>
        job.committed == old(job.committed) &&
        reports == old(reports) + RetryReports(Extra(old(job.nonce1), old(job.nonce2)), rounds)
      ensures var e0 := Extra(old(job.nonce1), old(job.nonce2));
        var e := Extra(job.nonce1, job.nonce2);
        var hits := hitsOf(job.nonce1, job.nonce2);
        r != OutOfRounds ==>
          e0 <= e && Windows(hits, 0) != -1 && job.committed &&
          reports == old(reports) + RetryReports(e0, e - e0) + WindowReports(e, FailedWindows(hits, 0)) &&
          r == if old(job.committed) then CommitFailed
               else Block(Commitment(job.nonce1, job.nonce2, job.attempt.time, Windows(hits, 0)))
    {
      job.start := now;
      var nonce := Retry(job, rounds, hitsOf);
      if nonce == -1 {
        return OutOfRounds;
      }
      var c := job.Commit(nonce);
      r := if c.Some? then Block(c.value) else CommitFailed;
    }

    /** The `for (;;)` loop of `mineAsync(job)`, for at most `rounds`
        rounds; `interfere[i]` is the oracle of round `i`.
        As for `mine`, except that a round whose search comes back without
        a nonce on a destroyed job cancels the loop. */
    method RetryAsync(job: CpuJob, rounds: nat, interfere: seq<seq<bool>>,
                      ghost hitsOf: (nat, nat) -> seq<int>) returns (nonce: int, cancelled: bool)
      requires job.Valid() && AllHitsAre(hitsOf, job.attempt, hash256)
      modifies this`reports, job`nonce1, job`nonce2, job`destroyed
      ensures job.Valid()
      ensures var e0 := Extra(old(job.nonce1), old(job.nonce2));
        var e := Extra(job.nonce1, job.nonce2);
        e0 <= e <= e0 + rounds && Missed(hitsOf, e0, e) && (e > e0 ==> !old(job.destroyed)) &&
        (nonce == -1 && !cancelled <==> e == e0 + rounds)
      ensures nonce == -1 && !cancelled ==>
        job.destroyed == (old(job.destroyed) && rounds == 0) &&
        reports == old(reports) + RetryReports(Extra(old(job.nonce1), old(job.nonce2)), rounds)
      ensures var e0 := Extra(old(job.nonce1), old(job.nonce2));
        var e := Extra(job.nonce1, job.nonce2);
        var hits := hitsOf(job.nonce1, job.nonce2);
        (nonce != -1 || cancelled) ==>
          e0 <= e &&
          var o := FindOutcome(hits, workers, old(job.destroyed) && e == e0, Round(interfere, e - e0));
          nonce == o.nonce && job.destroyed == o.destroyed &&
          reports == old(reports) + RetryReports(e0, e - e0) + WindowReports(e, o.failed) &&
          (cancelled <==> nonce == -1) && (cancelled ==> job.destroyed) &&
          (!cancelled ==> nonce == Windows(hits, 0))
    {
      ghost var e0 := Extra(job.nonce1, job.nonce2);
      nonce, cancelled := -1, false;
      var round: nat := 0;
      while round < rounds
        invariant round <= rounds && job.Valid()
        invariant Extra(job.nonce1, job.nonce2) == e0 + round && Missed(hitsOf, e0, e0 + round)
        invariant job.destroyed == (old(job.destroyed) && round == 0)
        invariant round > 0 ==> !old(job.destroyed)
        invariant reports == old(reports) + RetryReports(e0, round)
        invariant nonce == -1 && !cancelled
        decreases rounds - round
      {
        ghost var hits := hitsOf(job.nonce1, job.nonce2);
        HitsOfPair(hitsOf, job.attempt, hash256, job.nonce1, job.nonce2);
        MissedStep(hitsOf, e0, job.nonce1, job.nonce2);
        ghost var mid := reports;
        ghost var e := Extra(job.nonce1, job.nonce2);
        ghost var d := job.destroyed;
        nonce := MineAsyncRound(job, Round(interfere, round), hits);
        if nonce != -1 || job.destroyed {
          assert Extra(job.nonce1, job.nonce2) - e0 == round && (old(job.destroyed) && e == e0) == d;
          ghost var o := FindOutcome(hits, workers, d, Round(interfere, round));
          assert reports == old(reports) + RetryReports(e0, round) + WindowReports(e, o.failed);
          cancelled := nonce == -1;
          return;
        }
        RetryReportsStep(old(reports), mid, reports, e0, round, e);
        round := round + 1;
      }
    }

    /** `mineAsync(job)` at time `now`, for at most `rounds` full searches:
        the retry loop, then `null` when it was cancelled, else the commit
        of the nonce it found. */
    method MineAsync(job: CpuJob, now: int, rounds: nat, interfere: seq<seq<bool>>,
                     ghost hitsOf: (nat, nat) -> seq<int>) returns (r: MineResult)
      requires job.Valid() && AllHitsAre(hitsOf, job.attempt, hash256)
      modifies this`reports, job`start, job`nonce1, job`nonce2, job`committed, job`destroyed
      ensures job.Valid() && job.start == now
      ensures var e0 := Extra(old(job.nonce1), old(job.nonce2));
        var e := Extra(job.nonce1, job.nonce2);
        e0 <= e <= e0 + rounds && Missed(hitsOf, e0, e) && (e > e0 ==> !old(job.destroyed)) &&
        (r == OutOfRounds <==> e == e0 + rounds)
      ensures r == OutOfRounds ==>
        job.committed == old(job.committed) && job.destroyed == (old(job.destroyed) && rounds == 0) &&
        reports == old(reports) + RetryReports(Extra(old(job.nonce1), old(job.nonce2)), rounds)
      ensures var e0 := Extra(old(job.nonce1), old(job.nonce2));
        var e := Extra(job.nonce1, job.nonce2);
        var hits := hitsOf(job.nonce1, job.nonce2);
        r != OutOfRounds ==>
          e0 <= e &&
          var o := FindOutcome(hits, workers, old(job.destroyed) && e == e0, Round(interfere, e - e0));
          job.destroyed == o.destroyed &&
          reports == old(reports) + RetryReports(e0, e - e0) + WindowReports(e, o.failed) &&
          (r == Cancelled <==> o.nonce == -1) &&
          (r == Cancelled ==> job.destroyed && job.committed == old(job.committed)) &&
          (r != Cancelled ==>
             o.nonce == Windows(hits, 0) && job.committed &&
             r == if old(job.committed) then CommitFailed
                  else Block(Commitment(job.nonce1, job.nonce2, job.attempt.time, o.nonce)))
    {
      job.start := now;
      var nonce, cancelled := RetryAsync(job, rounds, interfere, hitsOf);
      if cancelled {
        return Cancelled;
      }
      if nonce == -1 {
        return OutOfRounds;
      }
      var c := job.Commit(nonce);
      r := if c.Some? then Block(c.value) else CommitFailed;
    }

    /** `notifyEntry()` at time `now` (seconds): a running miner drops a job
        older than ten seconds, so that the next one includes the new
        transaction. `ok` is false when `destroy` fails its assertion. */
    method NotifyEntry(now: int) returns (ok: bool)
      modifies this`job, (if job == null then {} else {job})`destroyed
      ensures var j := old(job);
        var fire := running && j != null && now - old(j.start) > 10;
        (ok <==> !(fire && old(j.destroyed))) &&
        (fire ==> j.destroyed && job == (if ok then null else j)) &&
        (!fire ==> job == j && (j != null ==> j.destroyed == old(j.destroyed)))
      ensures old(JobLive()) ==> ok && JobLive()
    {
      if !running {
        return true;
      }
      if job == null {
        return true;
      }
      if now - job.start > 10 {
        ok := job.Destroy();
        if !ok {
          return;
        }
        job := null;
        return;
      }
      ok := true;
    }

    /** The `tip` handler installed by `init`: a new tip on the same parent as
        the job's template makes the job stale and destroys it. It leaves
        `this.job` in place. */
    method OnTip(tipPrevBlock: Hash) returns (ok: bool)
      modifies (if job == null then {} else {job})`destroyed
      ensures var j := old(job);
        var fire := j != null && j.attempt.prevBlock == tipPrevBlock;
        (ok <==> !(fire && old(j.destroyed))) &&
        (fire ==> j.destroyed && !JobLive()) &&
        (!fire ==> (j != null ==> j.destroyed == old(j.destroyed)))
    {
      if job == null {
        return true;
      }
      if job.attempt.prevBlock == tipPrevBlock {
        ok := job.Destroy();
        return;
      }
      ok := true;
    }

    /** The `tip` handler with the stale job also cleared, as `notifyEntry`
        and `_stop` do: it keeps the current job live. */
    method OnTipClearing(tipPrevBlock: Hash) returns (ok: bool)
      modifies this`job, (if job == null then {} else {job})`destroyed
      ensures var j := old(job);
        var fire := j != null && j.attempt.prevBlock == tipPrevBlock;
        (ok <==> !(fire && old(j.destroyed))) &&
        (fire ==> j.destroyed && job == (if ok then null else j)) &&
        (!fire ==> job == j && (j != null ==> j.destroyed == old(j.destroyed)))
      ensures old(JobLive()) ==> ok && JobLive()
    {
      if job == null {
        return true;
      }
      if job.attempt.prevBlock == tipPrevBlock {
        ok := job.Destroy();
        if !ok {
          return;
        }
        job := null;
        return;
      }
      ok := true;
    }
  }

  /** A new tip on the job's parent, then a mempool entry more than ten
      seconds into the job: the handler as written leaves the destroyed job
      in place, and `notifyEntry` destroys it a second time. */
  method StaleTipThenEntry(hash256: seq<byte> -> Hash, attempt: Template) returns (ok: bool)
    ensures !ok
  {
    var miner := new CpuMiner(hash256, true);
    var job := new CpuJob(attempt, 0);
    miner.running := true;
    miner.job := job;
    var tipOk := miner.OnTip(attempt.prevBlock);
    ok := miner.NotifyEntry(11);
  }

  /** The same events with the clearing handler: both succeed. */
  method StaleTipThenEntryClearing(hash256: seq<byte> -> Hash, attempt: Template) returns (ok: bool)
    ensures ok
  {
    var miner := new CpuMiner(hash256, true);
    var job := new CpuJob(attempt, 0);
    miner.running := true;
    miner.job := job;
    var tipOk := miner.OnTipClearing(attempt.prevBlock);
    ok := miner.NotifyEntry(11);
    ok := ok && tipOk;
  }
}
