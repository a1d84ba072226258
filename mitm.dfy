/** The meet-in-the-middle search of mitm_cracker.c: a uid of up to 16 digits
    is split into a high part h (its leading digits) and a low part (its last
    8 digits, zero-padded). The CRC of the whole is the combine of CRC(h) and
    CRC(low), so for each h the CRC the low part needs is computed with the
    precomputed 8-byte shift matrix and looked up in the sorted table of
    low-part CRCs; every hit is re-checked with a direct CRC of the decimal
    uid before it is reported. */
module Mitm {
  import opened Crc
  import opened CrcTable
  import opened DecimalString
  import opened Gf2
  import opened MitmTable
  import opened HexParse
  import opened CrcVectors
  import opened Wrappers

  /** MAX_MITM_RESULTS in mitm_cracker.h. */
  const MAX_MITM_RESULTS: nat := 2_000_000

  /** Size of the `low_candidates` buffer of `mitm_crack`. */
  const CANDIDATE_SLOTS: nat := 16

  /** The cache file header: "MITM" as a little-endian word, and version 1. */
  const CACHE_MAGIC: bv32 := 0x4D49_544D
  const CACHE_VERSION: bv32 := 1

  // ---------------------------------------------------------------------------
  // `is_likely_valid_uid`.

  const LEGACY_MAX: nat := 2_200_000_000
  const SIXTEEN_MIN: nat := 1_000_000_000_000_000
  const SIXTEEN_END: nat := 10_000_000_000_000_000

  /** The (first four digits, digits five and six) pairs the filter admits. */
  predicate KnownPrefix(prefix: nat, sub: nat)
  {
    if prefix == 3461 then 56 <= sub <= 58
    else if prefix == 3492 then sub == 97
    else if prefix == 3493 then (7 <= sub <= 14) || (25 <= sub <= 29)
    else if prefix == 3494 then 35 <= sub <= 38
    else if prefix == 3536 then sub == 99
    else if prefix == 3537 then 10 <= sub <= 12
    else if prefix == 3546 then sub == 37 || sub == 92
    else false
  }

  /** `is_likely_valid_uid`: every legacy uid 1..2,200,000,000 passes; a
      16-digit uid passes only for a known prefix pair; nothing else does. */
  function IsLikelyValidUid(uid: nat): (r: bool)
    ensures 0 < uid <= LEGACY_MAX ==> r
    ensures r ==> (0 < uid <= LEGACY_MAX) || (SIXTEEN_MIN <= uid < SIXTEEN_END)
    ensures SIXTEEN_MIN <= uid < SIXTEEN_END ==>
              (r <==> KnownPrefix(uid / 1_000_000_000_000, (uid / 10_000_000_000) % 100))
  {
    if 0 < uid <= LEGACY_MAX then true
    else if SIXTEEN_MIN <= uid < SIXTEEN_END then
      KnownPrefix(uid / 1_000_000_000_000, (uid / 10_000_000_000) % 100)
    else false
  }

  lemma Pow10Small()
    ensures Pow10(2) == 100 && Pow10(3) == 1000 && Pow10(4) == 10_000
    ensures Pow10(10) == 10_000_000_000
  {
    assert Pow10(4) == 10_000;
    assert Pow10(8) == 100_000_000;
  }

  /** uid / 10^12 is the quotient of uid / 10^10 by 100. */
  lemma SplitUid(uid: nat)
    requires SIXTEEN_MIN <= uid < SIXTEEN_END
    ensures uid == (uid / 10_000_000_000) * 10_000_000_000 + uid % 10_000_000_000
    ensures uid / 10_000_000_000 == (uid / 1_000_000_000_000) * 100 + (uid / 10_000_000_000) % 100
    ensures 1000 <= uid / 1_000_000_000_000 < 10_000
  {
  }

  /** The spelling of a number assembled from a four-digit head p, two
      digits s and ten digits r. */
  lemma SpellParts(uid: nat, x: nat, r: nat, p: nat, s: nat)
    requires uid == x * Pow10(10) + r && r < Pow10(10)
    requires x == p * Pow10(2) + s && s < Pow10(2)
    requires Pow10(3) <= p < Pow10(4)
    ensures Decimal(uid) == Decimal(p) + Padded(s, 2) + Padded(r, 10)
    ensures |Decimal(p)| == 4
  {
    DecimalConcat(x, r, 10);
    DecimalConcat(p, s, 2);
    DecimalCanonical(p);
    NumDigitsBound(p, 4);
    NumDigitsBound(p, 3);
  }

  /** The divisions in the filter pick digits out of the spelling: for a
      16-digit uid, `uid / 10^12` spells its first four digits and
      `(uid / 10^10) % 100` its fifth and sixth. */
  lemma FilterDigits(uid: nat)
    requires SIXTEEN_MIN <= uid < SIXTEEN_END
    ensures Decimal(uid) == Decimal(uid / 1_000_000_000_000)
                            + Padded((uid / 10_000_000_000) % 100, 2)
                            + Padded(uid % 10_000_000_000, 10)
    ensures |Decimal(uid / 1_000_000_000_000)| == 4
  {
    Pow10Small();
    SplitUid(uid);
    SpellParts(uid, uid / 10_000_000_000, uid % 10_000_000_000,
               uid / 1_000_000_000_000, (uid / 10_000_000_000) % 100);
  }

  /** The uid the search was written for passes the filter. */
  lemma FilterAdmitsSample()
    ensures IsLikelyValidUid(3546921440381311)
    ensures !IsLikelyValidUid(0) && !IsLikelyValidUid(LEGACY_MAX + 1)
    ensures !IsLikelyValidUid(3546_50_0000000000)
  {
  }

  // ---------------------------------------------------------------------------
  // The meet in the middle.

  /** A uid `mitm_crack` may report for target: it passes the filter and its
      decimal CRC is the target. */
  predicate Reportable(uid: nat, target: bv32)
  {
    IsLikelyValidUid(uid) && Crc32(Decimal(uid)) == target
  }

  /** Every uid in s may be reported for target. */
  predicate AllReportable(s: seq<nat>, target: bv32)
  {
    forall i :: 0 <= i < |s| ==> Reportable(s[i], target)
  }

  /** Every reportable uid in [lo, hi) appears in s. */
  predicate Covered(s: seq<nat>, lo: nat, hi: nat, target: bv32)
  {
    forall u :: lo <= u < hi && Reportable(u, target) ==> u in s
  }

  /** Appending only reportable uids keeps a list reportable. */
  lemma AllReportableAppend(s: seq<nat>, k: nat, target: bv32)
    requires k <= |s| && AllReportable(s[..k], target) && AllReportable(s[k..], target)
    ensures AllReportable(s, target)
  {
    forall i | 0 <= i < |s|
      ensures Reportable(s[i], target)
    {
      if i < k {
        assert s[i] == s[..k][i];
      } else {
        assert s[i] == s[k..][i - k];
      }
    }
  }

  /** A list that extends one covering [lo, mid) and itself covers [mid, hi)
      covers [lo, hi). */
  lemma CoveredGrow(before: seq<nat>, after: seq<nat>, lo: nat, mid: nat, hi: nat, target: bv32)
    requires |before| <= |after| && before == after[..|before|]
    requires Covered(before, lo, mid, target) && Covered(after, mid, hi, target)
    ensures Covered(after, lo, hi, target)
  {
    forall u | lo <= u < hi && Reportable(u, target)
      ensures u in after
    {
      if u < mid {
        var i :| 0 <= i < |before| && before[i] == u;
        assert after[i] == u;
      }
    }
  }

  /** The uid with high part h and low part low (`(uint64_t)h * 100000000ULL + low`). */
  function Uid(h: nat, low: nat): nat
  {
    h * LOW_PART_LIMIT + low
  }

  /** The table key searched for the high part h. */
  function KeyFor(h: nat, target: bv32): u32
  {
    Num(Xor(target, ZeroBytes(LOW_PART_DIGITS, Crc32(Decimal(h)))))
  }

  lemma BitsOfNum(a: bv32)
    ensures (a as int) as bv32 == a
  {
  }

  lemma NumInjective(a: bv32, b: bv32)
    ensures Num(a) == Num(b) <==> a == b
  {
    BitsOfNum(a);
    BitsOfNum(b);
  }

  /** The meet in the middle is exact for a non-zero high part: on a built
      table, low is listed under the key of h exactly when the decimal CRC of
      h * 10^8 + low is the target. */
  lemma CandidateIff(t: seq<CrcEntry>, h: nat, low: nat, target: bv32, key: u32, uid: nat)
    requires IsTable(t, LOW_PART_LIMIT, LOW_PART_DIGITS)
    requires 1 <= h && low < LOW_PART_LIMIT
    requires key == KeyFor(h, target) && uid == Uid(h, low)
    ensures low in LowsOf(t, key) <==> Crc32(Decimal(uid)) == target
  {
    Pow10Values();
    var l := Padded(low, LOW_PART_DIGITS);
    var z := Xor(target, ZeroBytes(LOW_PART_DIGITS, Crc32(Decimal(h))));
    PrintfPaddedFits(low, LOW_PART_DIGITS);
    TableRun(t, LOW_PART_LIMIT, LOW_PART_DIGITS, key, low);
    assert low in LowsOf(t, key) <==> Num(Crc32(l)) == Num(z);
    NumInjective(Crc32(l), z);
    MatchIff(Decimal(h), l, target);
    UidSpelling(h, low, uid);
  }

  /** The decimal spelling of h * 10^8 + low for a non-zero h: the spelling
      of h, then low zero-padded to eight digits. */
  lemma UidSpelling(h: nat, low: nat, uid: nat)
    requires 1 <= h && low < LOW_PART_LIMIT && uid == Uid(h, low)
    ensures Decimal(uid) == Decimal(h) + Padded(low, LOW_PART_DIGITS)
  {
    Pow10Values();
    DecimalConcat(h, low, LOW_PART_DIGITS);
  }

  /** No run of equal keys is longer than n. */
  ghost predicate RunsFit(t: seq<CrcEntry>, n: nat)
  {
    forall key: u32 :: |LowsOf(t, key)| <= n
  }

  // ---------------------------------------------------------------------------
  // The engine.

  /** `MitmResult`: a result buffer, its fill count and its capacity. */
  class MitmResult {
    var uids: array?<nat>
    var count: int
    var capacity: int

    /** `MitmResult r = {0}`: no buffer yet; `mitm_crack` allocates one. */
    constructor Empty()
      ensures uids == null && count == 0 && capacity == 0
    {
      uids := null;
      count := 0;
      capacity := 0;
    }
  }

  /** The contents of a cache file: header words and the stored entries. */
  datatype CacheFile = CacheFile(magic: bv32, version: bv32, entries: seq<CrcEntry>)

  /** What `save_table` writes. */
  function SaveTable(t: seq<CrcEntry>): (f: CacheFile)
    ensures f.magic == CACHE_MAGIC && f.version == CACHE_VERSION && f.entries == t
  {
    CacheFile(CACHE_MAGIC, CACHE_VERSION, t)
  }

  /** `load_table`: no file, a wrong magic or version, or fewer than
      TABLE_ENTRY_COUNT entries fail; otherwise the first TABLE_ENTRY_COUNT
      entries are the table. The entries themselves are not checked. */
  function LoadTable(file: Option<CacheFile>): (r: Option<seq<CrcEntry>>)
    ensures r.Some? <==> file.Some? && file.value.magic == CACHE_MAGIC
                         && file.value.version == CACHE_VERSION
                         && |file.value.entries| >= LOW_PART_LIMIT
    ensures r.Some? ==> r.value == file.value.entries[..LOW_PART_LIMIT]
  {
    if file.None? then None
    else if file.value.magic != CACHE_MAGIC || file.value.version != CACHE_VERSION then None
    else if |file.value.entries| < LOW_PART_LIMIT then None
    else Some(file.value.entries[..LOW_PART_LIMIT])
  }

  /** A saved table loads back unchanged. */
  lemma LoadSaved(t: seq<CrcEntry>)
    requires |t| == LOW_PART_LIMIT
    ensures LoadTable(Some(SaveTable(t))) == Some(t)
  {
    assert t[..LOW_PART_LIMIT] == t;
  }

  /** The per-h work of `mitm_crack` after the lookup: each candidate low
      forms uid = h * 10^8 + low, which is kept only if it passes the filter
      and its decimal CRC is the target, and is appended while the buffer has
      room. */
  method ReportCandidates(h: nat, lows: array<nat>, n: nat, target: bv32,
                          result: MitmResult, uids: array<nat>)
    requires h < LOW_PART_LIMIT && n <= lows.Length && lows != uids
    requires result.uids == uids && 0 <= result.count <= Max0(result.capacity)
    requires result.capacity <= uids.Length
    modifies result, uids
    ensures result.uids == uids && result.capacity == old(result.capacity)
    ensures old(result.count) <= result.count <= Max0(result.capacity)
    ensures uids[..old(result.count)] == old(uids[..result.count])
    ensures forall i :: old(result.count) <= i < result.count ==> Reportable(uids[i], target)
    ensures result.count < result.capacity ==>
              forall low :: low in lows[..n] && Reportable(Uid(h, low), target) ==>
                Uid(h, low) in uids[..result.count]
  {
    var c0 := result.count;
    var i := 0;
    while i < n
      invariant i <= n && result.uids == uids && result.capacity == old(result.capacity)
      invariant c0 <= result.count <= Max0(result.capacity)
      invariant uids[..c0] == old(uids[..result.count])
      invariant forall k :: c0 <= k < result.count ==> Reportable(uids[k], target)
      invariant result.count < result.capacity ==>
                  forall low :: low in lows[..i] && Reportable(Uid(h, low), target) ==>
                    Uid(h, low) in uids[..result.count]
    {
      assert lows[..i + 1] == lows[..i] + [lows[i]];
      var low := lows[i];
      var uid := Uid(h, low);
      if IsLikelyValidUid(uid) {
        var check := Crc32Numeric(uid);
        if check == target && result.count < result.capacity {
          ghost var before := uids[..result.count];
          uids[result.count] := uid;
          result.count := result.count + 1;
          assert uids[..result.count] == before + [uid];
        }
      }
      i := i + 1;
    }
  }

  /** The lookup step of `mitm_crack` for high part h: spell h, take its
      CRC, shift it by the eight zero bytes of the low part with the
      precomputed matrix and search the table for the CRC the low part
      needs, collecting at most 16 low parts. */
  method LookupHigh(table: array<CrcEntry>, shift: array<bv32>, target: bv32, h: nat)
    returns (lows: array<nat>, n: nat)
    requires h < LOW_PART_LIMIT && shift.Length == 32 && Represents(shift[..], 8 * LOW_PART_DIGITS)
    ensures fresh(lows) && n <= lows.Length == CANDIDATE_SLOTS
    ensures forall i :: 0 <= i < n ==> lows[i] in LowsOf(table[..], KeyFor(h, target))
    ensures Sorted(table[..]) ==>
              n == Min(|LowsOf(table[..], KeyFor(h, target))|, CANDIDATE_SLOTS)
              && lows[..n] == LowsOf(table[..], KeyFor(h, target))[..n]
  {
    var highBuf := new bv8[16];
    Pow10Values();
    NumDigitsBound(h, 16);
    var highLen := FastUidToStr32(h, highBuf);
    var crcH := Crc32Fast(highBuf, highLen);
    var required := RequiredLFast(shift, target, crcH);
    assert Num(required) == KeyFor(h, target);
    lows := new nat[CANDIDATE_SLOTS];
    n := FindCandidates(table, Num(required), lows, CANDIDATE_SLOTS);
  }

  /** One iteration of the `h` loop of `mitm_crack`. */
  method ScanHigh(table: array<CrcEntry>, shift: array<bv32>, target: bv32, h: nat,
                  result: MitmResult, uids: array<nat>)
    requires h < LOW_PART_LIMIT && shift.Length == 32 && Represents(shift[..], 8 * LOW_PART_DIGITS)
    requires result.uids == uids && 0 <= result.count <= Max0(result.capacity)
    requires result.capacity <= uids.Length && uids as object != table
    modifies result, uids
    ensures result.uids == uids && result.capacity == old(result.capacity)
    ensures old(result.count) <= result.count <= Max0(result.capacity)
    ensures uids[..old(result.count)] == old(uids[..result.count])
    ensures AllReportable(uids[old(result.count)..result.count], target)
    ensures 1 <= h && IsTable(table[..], LOW_PART_LIMIT, LOW_PART_DIGITS)
            && RunsFit(table[..], CANDIDATE_SLOTS) && result.count < result.capacity ==>
              Covered(uids[..result.count], h * LOW_PART_LIMIT, (h + 1) * LOW_PART_LIMIT, target)
  {
    ghost var t := table[..];
    var lows, n := LookupHigh(table, shift, target, h);
    ghost var cand := lows[..n];
    ReportCandidates(h, lows, n, target, result, uids);
    assert table[..] == t && lows[..n] == cand;
    if 1 <= h && IsTable(t, LOW_PART_LIMIT, LOW_PART_DIGITS)
       && RunsFit(t, CANDIDATE_SLOTS) && result.count < result.capacity {
      HighCovered(t, h, target, KeyFor(h, target), cand, uids[..result.count]);
    }
  }

  /** On a built table whose runs fit the candidate buffer, the lookup for
      a non-zero h lists the low part of every matching uid of that h, so a
      list holding every reportable uid formed from those low parts covers
      the uids with high part h. */
  lemma HighCovered(t: seq<CrcEntry>, h: nat, target: bv32, key: u32, cand: seq<nat>, got: seq<nat>)
    requires IsTable(t, LOW_PART_LIMIT, LOW_PART_DIGITS) && RunsFit(t, CANDIDATE_SLOTS)
    requires 1 <= h && key == KeyFor(h, target)
    requires |cand| == Min(|LowsOf(t, key)|, CANDIDATE_SLOTS) && cand == LowsOf(t, key)[..|cand|]
    requires forall low :: low in cand && Reportable(Uid(h, low), target) ==> Uid(h, low) in got
    ensures Covered(got, h * LOW_PART_LIMIT, (h + 1) * LOW_PART_LIMIT, target)
  {
    assert |LowsOf(t, key)| <= CANDIDATE_SLOTS;
    assert cand == LowsOf(t, key);
    forall u | h * LOW_PART_LIMIT <= u < (h + 1) * LOW_PART_LIMIT && Reportable(u, target)
      ensures u in got
    {
      var low := u - h * LOW_PART_LIMIT;
      assert u == Uid(h, low);
      CandidateIff(t, h, low, target, key, u);
    }
  }

  /** `test_mitm_logic` (mitm_cracker.c:248-280) on uid 3546921440381311:
      its high part "35469214" and low part "40381311" combine to the CRC of
      the whole, and the required-L step gives back the CRC of the low part. */
  lemma MitmLogicSample()
    ensures Combined(Crc32(Decimal(35469214)), Crc32(Padded(40381311, 8)), 8)
            == Crc32(Decimal(3546921440381311)) == 0x90a5_67c7
    ensures Xor(Crc32(Decimal(3546921440381311)), ZeroBytes(8, Crc32(Decimal(35469214))))
            == Crc32(Padded(40381311, 8)) == 0x2640_627d
  {
    var h := Decimal(35469214);
    var l := Padded(40381311, 8);
    Pow10Values();
    PrintfPaddedFits(40381311, 8);
    UidSpelling(35469214, 40381311, 3546921440381311);
    CombinedConcat(h, l);
    RequiredLInverts(h, l);
    Vector3546921440381311();
    Vector40381311();
  }

  /** The `h` loop of `mitm_crack`: every h < 10^8 in turn, from an empty
      result. */
  method ScanAll(table: array<CrcEntry>, shift: array<bv32>, target: bv32,
                 result: MitmResult, uids: array<nat>)
    requires shift.Length == 32 && Represents(shift[..], 8 * LOW_PART_DIGITS)
    requires uids as object != shift && uids as object != table
    requires result.uids == uids && result.count == 0 && result.capacity <= uids.Length
    modifies result, uids
    ensures result.uids == uids && result.capacity == old(result.capacity)
    ensures 0 <= result.count <= Max0(result.capacity)
    ensures AllReportable(uids[..result.count], target)
    ensures IsTable(table[..], LOW_PART_LIMIT, LOW_PART_DIGITS) && RunsFit(table[..], CANDIDATE_SLOTS)
            && result.count < result.capacity ==>
              Covered(uids[..result.count], LOW_PART_LIMIT, LOW_PART_LIMIT * LOW_PART_LIMIT, target)
  {
    ghost var matrix := shift[..];
    ghost var fits := IsTable(table[..], LOW_PART_LIMIT, LOW_PART_DIGITS) && RunsFit(table[..], CANDIDATE_SLOTS);
    ghost var entries := table[..];
    var h := 0;
    while h < LOW_PART_LIMIT
      invariant h <= LOW_PART_LIMIT && shift[..] == matrix && table[..] == entries
      invariant result.uids == uids && result.capacity == old(result.capacity)
      invariant 0 <= result.count <= Max0(result.capacity)
      invariant AllReportable(uids[..result.count], target)
      invariant fits && result.count < result.capacity ==>
                  Covered(uids[..result.count], LOW_PART_LIMIT, h * LOW_PART_LIMIT, target)
    {
      ghost var before := uids[..result.count];
      ScanHigh(table, shift, target, h, result, uids);
      assert uids[..result.count][..|before|] == before;
      assert uids[..result.count][|before|..] == uids[|before|..result.count];
      AllReportableAppend(uids[..result.count], |before|, target);
      if fits && result.count < result.capacity && h >= 1 {
        CoveredGrow(before, uids[..result.count], LOW_PART_LIMIT, h * LOW_PART_LIMIT,
                    (h + 1) * LOW_PART_LIMIT, target);
      }
      h := h + 1;
    }
  }

  /** The module state of mitm_cracker.c: the table `g_mitm_table`, the flag
      `g_mitm_ready` and the static shift matrix `g_shift_matrix_len8`. */
  class MitmEngine {
    var table: array?<CrcEntry>
    var ready: bool
    const shift: array<bv32>

    /** Once ready, the table has its TABLE_ENTRY_COUNT entries and the shift
        matrix is the matrix of eight zero bytes. */
    ghost predicate Valid()
      reads this, shift
    {
      shift.Length == 32
      && (ready ==> table != null && table.Length == LOW_PART_LIMIT
                    && Represents(shift[..], 8 * LOW_PART_DIGITS))
    }

    /** The state at program start: no table, not ready. */
    constructor ()
      ensures Valid() && !ready && table == null && fresh(shift)
    {
      table := null;
      ready := false;
      shift := new bv32[32];
    }

    /** `mitm_init`: nothing to do once ready. Otherwise allocate the table,
        take it from the cache when the cache loads, else build it and hand
        back the cache file `save_table` writes; either way precompute the
        shift matrix for LOW_PART_DIGITS zero bytes and become ready. */
    method Init(cache: Option<CacheFile>) returns (r: int, saved: Option<CacheFile>)
      requires Valid()
      modifies this, shift
      ensures Valid() && ready && r == 0
      ensures old(ready) ==> table == old(table) && saved == None && shift[..] == old(shift[..])
      ensures !old(ready) ==> fresh(table)
      ensures !old(ready) && LoadTable(cache).Some? ==>
                table[..] == LoadTable(cache).value && saved == None
      ensures !old(ready) && LoadTable(cache).None? ==>
                IsTable(table[..], LOW_PART_LIMIT, LOW_PART_DIGITS) && saved == Some(SaveTable(table[..]))
    {
      if ready {
        return 0, None;
      }
      var t := new CrcEntry[LOW_PART_LIMIT];
      table := t;
      var loaded := LoadTable(cache);
      saved := None;
      if loaded.Some? {
        Store(t, loaded.value);
      } else {
        BuildTable(t);
        saved := Some(SaveTable(t[..]));
      }
      PrecomputeShiftMatrix(shift, LOW_PART_DIGITS);
      ready := true;
      r := 0;
    }

    /** `mitm_cleanup`: drop the table and the ready flag. */
    method Cleanup()
      requires Valid()
      modifies this
      ensures Valid() && table == null && !ready
    {
      table := null;
      ready := false;
    }

    /** `mitm_crack`: -1 when not ready or without a result. Otherwise the
        count restarts at 0, a missing buffer is allocated with capacity
        MAX_MITM_RESULTS, and every h < 10^8 is looked up; the return value
        is the count. Every reported uid passes the filter and its decimal
        CRC is the target. On a built table whose runs fit the 16 candidate
        slots, and while the buffer does not fill, every such uid of 9 to 16
        digits is reported. */
    method Crack(targetHash: seq<char>, result: MitmResult?) returns (r: int)
      requires Valid()
      requires result != null && result.uids != null ==> result.capacity <= result.uids.Length
      requires result != null && result.uids != null ==>
                 result.uids as object != shift && result.uids as object != table
      modifies result, if result != null && result.uids != null then {result.uids} else {}
      ensures !ready || result == null ==> r == -1 && (result != null ==> unchanged(result))
      ensures ready && result != null ==>
                r == result.count && result.uids != null
                && 0 <= result.count <= Max0(result.capacity) && result.capacity <= result.uids.Length
      ensures ready && result != null && old(result.uids) == null ==>
                fresh(result.uids) && result.capacity == MAX_MITM_RESULTS
      ensures ready && result != null && old(result.uids) != null ==>
                result.uids == old(result.uids) && result.capacity == old(result.capacity)
      ensures ready && result != null ==> AllReportable(result.uids[..result.count], Target(targetHash))
      ensures ready && result != null
              && IsTable(table[..], LOW_PART_LIMIT, LOW_PART_DIGITS) && RunsFit(table[..], CANDIDATE_SLOTS)
              && result.count < result.capacity ==>
                Covered(result.uids[..result.count], LOW_PART_LIMIT, LOW_PART_LIMIT * LOW_PART_LIMIT,
                        Target(targetHash))
    {
      if !ready || result == null {
        return -1;
      }
      result.count := 0;
      if result.uids == null {
        result.capacity := MAX_MITM_RESULTS;
        result.uids := new nat[MAX_MITM_RESULTS];
      }
      var target := Target(targetHash);
      ScanAll(table, shift, target, result, result.uids);
      r := result.count;
    }
  }
}
