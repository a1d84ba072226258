/** The brute-force preimage scans: try every uid in a range, spell it in
    decimal, take its CRC-32 and compare it with the target hash.
    cracker.c stops at the first match, find_all_collisions.c and
    find_all_collisions.py collect every match, and bilitrace_local.c splits
    the range among worker threads that each stop at their first match.
    The bounds the programs use (5·10^9 and 4·10^9) are parameters here. */
module Scan {
  import opened Crc
  import opened CrcTable
  import opened DecimalString
  import opened HexParse
  import opened Wrappers

  /** The scan bound of cracker.c and find_all_collisions.{c,py}. */
  const MAX_UID: nat := 5_000_000_000
  /** The scan bound of the threaded `crack_hash` in bilitrace_local.c. */
  const LOCAL_MAX_UID: nat := 4_000_000_000
  /** The size of the `matches` array in find_all_collisions.c. */
  const MATCH_SLOTS: nat := 100
  /** The target hard-wired in find_all_collisions.py. */
  const PY_TARGET: bv32 := 0x338a_39a5
  /** `fast_uid_to_str` keeps at most 16 digits. */
  const SPELLABLE: nat := 10_000_000_000_000_000

  /** The hash every scan compares with the target: the CRC-32 of the
      uid's decimal spelling. */
  function UidCrc32(uid: nat): bv32
  {
    Crc32(Decimal(uid))
  }

  /** The hash the threaded scan of bilitrace_local.c compares with the
      target: `crc32_fast` with the table as that file spells it. */
  function LocalUidCrc32(uid: nat): bv32
  {
    Crc32AsWritten(Decimal(uid))
  }

  // ---------------------------------------------------------------------------
  // Reference definitions, for any hash of the uids.

  /** The smallest uid in [lo, hi) whose hash is target, if any. */
  function FirstMatch(hash: nat -> bv32, target: bv32, lo: nat, hi: nat): (r: Option<nat>)
    ensures r.Some? ==> lo <= r.value < hi && hash(r.value) == target
    ensures r.Some? ==> forall v :: lo <= v < r.value ==> hash(v) != target
    ensures r.None? <==> forall v :: lo <= v < hi ==> hash(v) != target
    decreases hi - lo
  {
    if hi <= lo then None
    else if hash(lo) == target then Some(lo)
    else FirstMatch(hash, target, lo + 1, hi)
  }

  /** Every uid below n whose hash is target, in ascending order. */
  function AllMatches(hash: nat -> bv32, target: bv32, n: nat): seq<nat>
  {
    if n == 0 then []
    else AllMatches(hash, target, n - 1) + (if hash(n - 1) == target then [n - 1] else [])
  }

  /** The list holds exactly the matching uids below n, strictly ascending. */
  lemma {:induction false} AllMatchesSpec(hash: nat -> bv32, target: bv32, n: nat)
    ensures forall i :: 0 <= i < |AllMatches(hash, target, n)| ==>
              AllMatches(hash, target, n)[i] < n && hash(AllMatches(hash, target, n)[i]) == target
    ensures forall i, j :: 0 <= i < j < |AllMatches(hash, target, n)| ==>
              AllMatches(hash, target, n)[i] < AllMatches(hash, target, n)[j]
    ensures forall v: nat :: v < n && hash(v) == target ==> v in AllMatches(hash, target, n)
  {
    if n > 0 {
      var prev := AllMatches(hash, target, n - 1);
      var r := AllMatches(hash, target, n);
      AllMatchesSpec(hash, target, n - 1);
      assert r == prev + (if hash(n - 1) == target then [n - 1] else []);
      assert forall i :: 0 <= i < |prev| ==> r[i] == prev[i];
      forall v: nat | v < n && hash(v) == target
        ensures v in r
      {
        if v < n - 1 {
          var i :| 0 <= i < |prev| && prev[i] == v;
          assert r[i] == v;
        } else {
          assert r[|r| - 1] == v;
        }
      }
    }
  }

  /** The first match is the head of the list of all matches. */
  lemma FirstOfAll(hash: nat -> bv32, target: bv32, n: nat)
    ensures FirstMatch(hash, target, 0, n) == if AllMatches(hash, target, n) == [] then None
                                              else Some(AllMatches(hash, target, n)[0])
  {
    AllMatchesSpec(hash, target, n);
    var all := AllMatches(hash, target, n);
    var f := FirstMatch(hash, target, 0, n);
    if f.Some? {
      assert f.value in all;
    }
  }

  /** The first match of [lo, hi) is that of [lo, mid) if there is one,
      else that of [mid, hi). */
  lemma {:induction false} FirstMatchSplit(hash: nat -> bv32, target: bv32, lo: nat, mid: nat, hi: nat)
    requires lo <= mid <= hi
    ensures FirstMatch(hash, target, lo, hi) == if FirstMatch(hash, target, lo, mid).Some?
                                                then FirstMatch(hash, target, lo, mid)
                                                else FirstMatch(hash, target, mid, hi)
    decreases mid - lo
  {
    if lo < mid && hash(lo) != target {
      FirstMatchSplit(hash, target, lo + 1, mid, hi);
    }
  }

  /** One more uid: the first match of [lo, hi + 1). */
  lemma FirstMatchStep(hash: nat -> bv32, target: bv32, lo: nat, hi: nat)
    requires lo <= hi
    ensures FirstMatch(hash, target, lo, hi + 1) ==
              if FirstMatch(hash, target, lo, hi).Some? then FirstMatch(hash, target, lo, hi)
              else if hash(hi) == target then Some(hi) else None
  {
    FirstMatchSplit(hash, target, lo, hi, hi + 1);
  }

  /** The list of matches only grows with the bound. */
  lemma {:induction false} AllMatchesGrow(hash: nat -> bv32, target: bv32, m: nat, n: nat)
    requires m <= n
    ensures |AllMatches(hash, target, m)| <= |AllMatches(hash, target, n)|
    ensures AllMatches(hash, target, m) == AllMatches(hash, target, n)[..|AllMatches(hash, target, m)|]
    decreases n - m
  {
    if m < n {
      AllMatchesGrow(hash, target, m, n - 1);
    }
  }

  /** One more uid: given the matches below n and the hash of n, the
      matches below n + 1. */
  lemma AllMatchesStep(hash: nat -> bv32, target: bv32, n: nat, below: seq<nat>, h: bv32)
    requires below == AllMatches(hash, target, n) && h == hash(n)
    ensures h == target ==> AllMatches(hash, target, n + 1) == below + [n]
    ensures h != target ==> AllMatches(hash, target, n + 1) == below
  {
  }

  /** What `crack_hash` returns for a scan of [0, n): the first match, or 0
      when there is none. */
  function CrackResult(hash: nat -> bv32, target: bv32, n: nat): nat
  {
    FirstMatch(hash, target, 0, n).GetOr(0)
  }

  /** A result of 0 means either "no match" or "uid 0 matches"; the caller
      cannot tell which. */
  lemma ZeroIsAmbiguous(hash: nat -> bv32, target: bv32, n: nat)
    ensures CrackResult(hash, target, n) == 0 <==>
              FirstMatch(hash, target, 0, n).None? || (0 < n && hash(0) == target)
  {
  }

  // ---------------------------------------------------------------------------
  // The scans.

  /** hash is the decimal CRC-32 of the uids. The scans below take it as a
      ghost parameter, so that their proofs treat it as an opaque value. */
  ghost predicate IsUidHash(hash: nat -> bv32)
  {
    forall u {:trigger UidCrc32(u)} :: hash(u) == UidCrc32(u)
  }

  /** `fast_uid_to_str` (utils.h) then `crc32_fast` through the reused buffer. */
  method UidCrc(uid: nat, buf: array<bv8>, ghost hash: nat -> bv32) returns (crc: bv32)
    requires uid < SPELLABLE && buf.Length == 16 && IsUidHash(hash)
    modifies buf
    ensures crc == hash(uid)
  {
    WidthDigits(uid);
    var len := FastUidToStr(uid, buf);
    crc := Crc32Fast(buf, len);
    assert crc == UidCrc32(uid);
  }

  /** hash is the hash of the threaded scan: `crc32_fast` of bilitrace_local.c
      with its own table. */
  ghost predicate IsLocalUidHash(hash: nat -> bv32)
  {
    forall u {:trigger LocalUidCrc32(u)} :: hash(u) == LocalUidCrc32(u)
  }

  /** The 32-bit `fast_uid_to_str` then `crc32_fast` of bilitrace_local.c,
      with the table as written there. */
  method UidCrcU32(uid: nat, buf: array<bv8>, ghost hash: nat -> bv32) returns (crc: bv32)
    requires uid < 0x1_0000_0000 && buf.Length == 16 && IsLocalUidHash(hash)
    modifies buf
    ensures crc == hash(uid)
  {
    WidthDigits(uid);
    var len := FastUidToStr32(uid, buf);
    crc := Crc32FastAsWritten(buf, len);
    assert crc == LocalUidCrc32(uid);
  }

  /** `crack_hash` of cracker.c with the bound as a parameter: the first uid
      below maxUid whose decimal CRC is the parsed target, else 0. The thread
      count is ignored. */
  method CrackHashBelow(hexHash: seq<char>, threadCount: int, maxUid: nat) returns (uid: nat)
    requires maxUid <= SPELLABLE
    ensures uid == CrackResult(UidCrc32, Target(hexHash), maxUid)
  {
    var target := Target(hexHash);
    var buf := new bv8[16];
    var u := 0;
    while u < maxUid
      invariant u <= maxUid && FirstMatch(UidCrc32, target, 0, u).None?
    {
      var crc := UidCrc(u, buf, UidCrc32);
      FirstMatchStep(UidCrc32, target, 0, u);
      if crc == target {
        FirstMatchSplit(UidCrc32, target, 0, u + 1, maxUid);
        return u;
      }
      u := u + 1;
    }
    return 0;
  }

  /** `crack_hash` of cracker.c: the scan of [0, 5·10^9). */
  method CrackHash(hexHash: seq<char>, threadCount: int) returns (uid: nat)
    ensures uid == CrackResult(UidCrc32, Target(hexHash), MAX_UID)
    ensures uid < MAX_UID
  {
    uid := CrackHashBelow(hexHash, threadCount, MAX_UID);
  }

  /** The outcome of find_all_collisions.c: the usage error, the report,
      or the write past the end of `matches` that the C code does not guard
      against (a 101st match). */
  datatype Collisions = Usage | Report(target: bv32, matches: seq<nat>) | Overflow(target: bv32)

  /** `main` of find_all_collisions.c with the bound as a parameter: without
      an argument, status 1; otherwise the scan for the parsed target. */
  method FindAllCollisionsBelow(argv: seq<seq<char>>, maxUid: nat) returns (c: Collisions)
    requires maxUid <= SPELLABLE
    ensures |argv| < 2 <==> c == Usage
    ensures |argv| >= 2 ==> c == Collected(UidCrc32, Target(argv[1]), maxUid)
  {
    if |argv| < 2 {
      return Usage;
    }
    c := CollectMatches(Target(argv[1]), maxUid, UidCrc32);
  }

  /** What the scan of find_all_collisions.c ends with: every match below
      maxUid in ascending order, or the overflow when there are more than
      the 100 slots hold. */
  function Collected(hash: nat -> bv32, target: bv32, maxUid: nat): Collisions
  {
    var all := AllMatches(hash, target, maxUid);
    if |all| <= MATCH_SLOTS then Report(target, all) else Overflow(target)
  }

  /** The loop of find_all_collisions.c: every uid below maxUid in turn, each
      match appended to the 100-slot array. */
  method CollectMatches(target: bv32, maxUid: nat, ghost hash: nat -> bv32) returns (c: Collisions)
    requires maxUid <= SPELLABLE && IsUidHash(hash)
    ensures c == Collected(hash, target, maxUid)
  {
    var buf := new bv8[16];
    var matches := new nat[MATCH_SLOTS];
    var matchCount := 0;
    ghost var found: seq<nat> := [];
    var uid := 0;
    while uid < maxUid
      invariant uid <= maxUid && matchCount <= MATCH_SLOTS
      invariant matches[..matchCount] == found
      invariant found == AllMatches(hash, target, uid)
    {
      var crc := UidCrc(uid, buf, hash);
      AllMatchesStep(hash, target, uid, found, crc);
      if crc == target {
        if matchCount == MATCH_SLOTS {
          AllMatchesGrow(hash, target, uid + 1, maxUid);
          return Overflow(target);
        }
        matches[matchCount] := uid;
        matchCount := matchCount + 1;
        found := found + [uid];
        assert matches[..matchCount] == found;
      }
      uid := uid + 1;
    }
    return Report(target, matches[..matchCount]);
  }

  /** find_all_collisions.c itself: the scan of [0, 5·10^9). */
  method FindAllCollisions(argv: seq<seq<char>>) returns (c: Collisions)
    ensures |argv| < 2 <==> c == Usage
    ensures |argv| >= 2 ==> c == Collected(UidCrc32, Target(argv[1]), MAX_UID)
  {
    c := FindAllCollisionsBelow(argv, MAX_UID);
  }

  /** find_all_collisions.py with the bound as a parameter: every uid below
      maxUid whose `zlib.crc32(str(uid).encode())` is 0x338a39a5, in
      ascending order, and the total it prints. */
  method FindAllCollisionsPy(maxUid: nat) returns (matches: seq<nat>, total: nat)
    ensures matches == AllMatches(UidCrc32, PY_TARGET, maxUid) && total == |matches|
  {
    matches := [];
    var uid := 0;
    while uid < maxUid
      invariant uid <= maxUid && matches == AllMatches(UidCrc32, PY_TARGET, uid)
    {
      var crc := UidCrc32(uid);
      AllMatchesStep(UidCrc32, PY_TARGET, uid, matches, crc);
      if crc == PY_TARGET {
        matches := matches + [uid];
      }
      uid := uid + 1;
    }
    total := |matches|;
  }

  // ---------------------------------------------------------------------------
  // The threaded cracker of bilitrace_local.c.

  /** `worker_thread`: scan [start, end) and stop at the first match. The
      shared "found" flag is not modelled; a worker runs to its own end. */
  method Worker(start: nat, end: nat, target: bv32, ghost hash: nat -> bv32) returns (found: Option<nat>)
    requires end <= 0x1_0000_0000 && IsLocalUidHash(hash)
    ensures found == FirstMatch(hash, target, start, end)
  {
    var buf := new bv8[16];
    var uid := start;
    while uid < end
      invariant start <= uid && (start <= end ==> uid <= end)
      invariant FirstMatch(hash, target, start, uid).None?
      decreases end - uid
    {
      var crc := UidCrcU32(uid, buf, hash);
      FirstMatchStep(hash, target, start, uid);
      if crc == target {
        FirstMatchSplit(hash, target, start, uid + 1, end);
        return Some(uid);
      }
      uid := uid + 1;
    }
    if start <= end {
      assert uid == end;
    }
    return None;
  }

  /** The range `[start, end)` handed to one worker. */
  datatype Range = Range(start: nat, end: nat)

  /** Worker i of n over [0, max): `i * step` up to `(i + 1) * step`, the last
      worker ending at max, where `step = max / n`. */
  function WorkerRange(max: nat, n: nat, i: nat): (r: Range)
    requires 1 <= n && i < n
  {
    var step := max / n;
    Range(i * step, if i == n - 1 then max else (i + 1) * step)
  }

  /** The ranges follow one another: each starts where the previous ends,
      the first at 0 and the last ends at max. */
  lemma PartitionTiles(max: nat, n: nat, i: nat)
    requires 1 <= n && i < n
    ensures WorkerRange(max, n, 0).start == 0 && WorkerRange(max, n, n - 1).end == max
    ensures WorkerRange(max, n, i).start <= WorkerRange(max, n, i).end
    ensures WorkerRange(max, n, i).end <= max
    ensures i + 1 < n ==> WorkerRange(max, n, i).end == WorkerRange(max, n, i + 1).start
  {
    var step := max / n;
    StepFits(max, n);
    MulLe(n - 1, n, step);
    MulLe(i, n - 1, step);
    if i + 1 < n {
      MulLe(i + 1, n - 1, step);
    }
  }

  lemma StepFits(max: nat, n: nat)
    requires 1 <= n
    ensures n * (max / n) <= max
  {
  }

  /** The worker whose range holds u. */
  function Owner(max: nat, n: nat, u: nat): nat
    requires 1 <= n
  {
    var step := max / n;
    if step == 0 || u / step >= n - 1 then n - 1 else u / step
  }

  /** Every uid below max lies in the range of its owner and of no other
      worker. */
  lemma PartitionCovers(max: nat, n: nat, u: nat)
    requires 1 <= n && u < max
    ensures Owner(max, n, u) < n
    ensures forall i :: 0 <= i < n ==>
              (WorkerRange(max, n, i).start <= u < WorkerRange(max, n, i).end <==> i == Owner(max, n, u))
  {
    var step := max / n;
    var o := Owner(max, n, u);
    OwnerBounds(max, n, u);
    forall i | 0 <= i < n
      ensures WorkerRange(max, n, i).start <= u < WorkerRange(max, n, i).end <==> i == o
    {
      if i < o {
        MulLe(i + 1, o, step);
      } else if i > o {
        MulLe(o + 1, i, step);
      }
    }
  }

  /** The owner's range starts at or below u and, unless it is the last
      range, ends above u. */
  lemma OwnerBounds(max: nat, n: nat, u: nat)
    requires 1 <= n && u < max
    ensures Owner(max, n, u) * (max / n) <= u
    ensures Owner(max, n, u) < n - 1 ==> u < (Owner(max, n, u) + 1) * (max / n)
  {
    var step := max / n;
    if step > 0 {
      var k := u / step;
      assert k * step <= u < (k + 1) * step;
      if k >= n - 1 {
        MulLe(n - 1, k, step);
      }
    }
  }

  lemma MulLe(a: nat, b: nat, c: nat)
    requires a <= b
    ensures a * c <= b * c
  {
  }

  /** The loop of lines 238-247 that fills the worker arguments. */
  method SplitRange(max: nat, threadCount: nat) returns (args: array<Range>)
    requires 1 <= threadCount
    ensures fresh(args) && args.Length == threadCount
    ensures forall k :: 0 <= k < threadCount ==> args[k] == WorkerRange(max, threadCount, k)
  {
    args := new Range[threadCount];
    var i := 0;
    while i < threadCount
      invariant i <= threadCount
      invariant forall k :: 0 <= k < i ==> args[k] == WorkerRange(max, threadCount, k)
    {
      args[i] := WorkerRange(max, threadCount, i);
      i := i + 1;
    }
  }

  /** What worker i of n finds when it runs to the end of its range. */
  function WorkerFirst(hash: nat -> bv32, target: bv32, max: nat, n: nat, i: nat): Option<nat>
    requires 1 <= n && i < n
  {
    FirstMatch(hash, target, WorkerRange(max, n, i).start, WorkerRange(max, n, i).end)
  }

  /** The first match of [lo, hi) is u when u matches and nothing before it
      does. */
  lemma {:induction false} FirstMatchIs(hash: nat -> bv32, target: bv32, lo: nat, hi: nat, u: nat)
    requires lo <= u < hi && hash(u) == target
    requires forall v :: lo <= v < u ==> hash(v) != target
    ensures FirstMatch(hash, target, lo, hi) == Some(u)
    decreases u - lo
  {
    if lo < u {
      FirstMatchIs(hash, target, lo + 1, hi, u);
    }
  }

  /** With no match below max, no worker finds one. */
  lemma NoWorkerFinds(hash: nat -> bv32, target: bv32, max: nat, n: nat, i: nat)
    requires 1 <= n && i < n && FirstMatch(hash, target, 0, max).None?
    ensures WorkerFirst(hash, target, max, n, i).None?
  {
    PartitionTiles(max, n, i);
  }

  /** The worker that owns the first match below max finds exactly it: the
      answer of a sequential scan is one the threads can give. */
  lemma OwnerFindsFirst(hash: nat -> bv32, target: bv32, max: nat, n: nat)
    requires 1 <= n && FirstMatch(hash, target, 0, max).Some?
    ensures var u := FirstMatch(hash, target, 0, max).value;
            Owner(max, n, u) < n && WorkerFirst(hash, target, max, n, Owner(max, n, u)) == Some(u)
  {
    var u := FirstMatch(hash, target, 0, max).value;
    PartitionCovers(max, n, u);
    var o := Owner(max, n, u);
    var r := WorkerRange(max, n, o);
    FirstMatchIs(hash, target, r.start, r.end, u);
  }

  /** The loop of lines 238-247 that starts the workers, followed by the
      joins: each worker's own first match. The workers are run one after
      another; `g_found` stopping a worker early only keeps it from writing
      `g_result_uid`, which the choice of the last writer below stands for. */
  method RunWorkers(args: array<Range>, max: nat, target: bv32, ghost hash: nat -> bv32)
    returns (results: array<Option<nat>>)
    requires 1 <= args.Length && max <= 0x1_0000_0000 && IsLocalUidHash(hash)
    requires forall k :: 0 <= k < args.Length ==> args[k] == WorkerRange(max, args.Length, k)
    ensures fresh(results) && results.Length == args.Length
    ensures forall k :: 0 <= k < results.Length ==> results[k] == WorkerFirst(hash, target, max, args.Length, k)
  {
    var n := args.Length;
    results := new Option<nat>[n];
    var i := 0;
    while i < n
      invariant i <= n
      invariant forall k :: 0 <= k < i ==> results[k] == WorkerFirst(hash, target, max, n, k)
    {
      PartitionTiles(max, n, i);
      var r := Worker(args[i].start, args[i].end, target, hash);
      results[i] := r;
      i := i + 1;
    }
  }

  /** The value left in `g_result_uid` once every worker has been joined:
      the match of the worker whose write landed last, given as lastWriter;
      when that worker wrote nothing, the lowest-numbered worker that found
      a match; 0 when none did. */
  method LastWrite(results: array<Option<nat>>, lastWriter: nat) returns (uid: nat)
    ensures (forall k :: 0 <= k < results.Length ==> results[k].None?) ==> uid == 0
    ensures (exists k :: 0 <= k < results.Length && results[k].Some?) ==>
              exists k :: 0 <= k < results.Length && results[k] == Some(uid)
    ensures lastWriter < results.Length && results[lastWriter].Some? ==> uid == results[lastWriter].value
  {
    if lastWriter < results.Length && results[lastWriter].Some? {
      return results[lastWriter].value;
    }
    var i := 0;
    while i < results.Length
      invariant i <= results.Length
      invariant forall k :: 0 <= k < i ==> results[k].None?
    {
      if results[i].Some? {
        return results[i].value;
      }
      i := i + 1;
    }
    return 0;
  }

  /** The threaded `crack_hash` of bilitrace_local.c with the bound as a
      parameter and the order of the workers' writes as lastWriter: 0 when
      no uid below max matches; otherwise the first match of some worker's
      range, that of lastWriter when it found one. */
  method CrackHashLocal(hexHash: seq<char>, threadCount: nat, max: nat, lastWriter: nat) returns (uid: nat)
    requires 1 <= threadCount && max <= 0x1_0000_0000
    ensures var target := Target(hexHash);
            FirstMatch(LocalUidCrc32, target, 0, max).None? ==> uid == 0
    ensures var target := Target(hexHash);
            FirstMatch(LocalUidCrc32, target, 0, max).Some? ==>
              exists k :: 0 <= k < threadCount && WorkerFirst(LocalUidCrc32, target, max, threadCount, k) == Some(uid)
    ensures var target := Target(hexHash);
            lastWriter < threadCount && WorkerFirst(LocalUidCrc32, target, max, threadCount, lastWriter).Some? ==>
              uid == WorkerFirst(LocalUidCrc32, target, max, threadCount, lastWriter).value
  {
    var target := Target(hexHash);
    var args := SplitRange(max, threadCount);
    var results := RunWorkers(args, max, target, LocalUidCrc32);
    uid := LastWrite(results, lastWriter);
    WorkersCover(LocalUidCrc32, target, max, threadCount);
  }

  /** Some worker finds a match exactly when there is one below max. */
  lemma WorkersCover(hash: nat -> bv32, target: bv32, max: nat, n: nat)
    requires 1 <= n
    ensures FirstMatch(hash, target, 0, max).None? ==> forall k :: 0 <= k < n ==> WorkerFirst(hash, target, max, n, k).None?
    ensures FirstMatch(hash, target, 0, max).Some? ==> exists k :: 0 <= k < n && WorkerFirst(hash, target, max, n, k).Some?
  {
    if FirstMatch(hash, target, 0, max).None? {
      forall k | 0 <= k < n
        ensures WorkerFirst(hash, target, max, n, k).None?
      {
        NoWorkerFinds(hash, target, max, n, k);
      }
    } else {
      OwnerFindsFirst(hash, target, max, n);
    }
  }
}
