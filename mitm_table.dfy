/** The lookup table of the meet-in-the-middle engine (mitm_cracker.c): one
    entry (CRC of the low part zero-padded to eight digits, low part) per low
    part, sorted by CRC, and the binary search `find_candidates` that returns
    every low part of the run of entries whose CRC equals a key. */
module MitmTable {
  import opened Crc
  import opened CrcTable
  import opened DecimalString

  /** A `uint32_t` as a number, the way the table compares CRCs. */
  newtype u32 = x: int | 0 <= x < 0x1_0000_0000

  /** `CrcEntry`: a CRC and the low part it was computed from. */
  datatype CrcEntry = CrcEntry(crc: u32, low: nat)

  /** A CRC register value as the unsigned number the table stores. */
  function Num(c: bv32): u32 { c as int as u32 }

  /** Number of low parts, `LOW_PART_LIMIT` (10^8). */
  const LOW_PART_LIMIT: nat := 100_000_000

  /** Width of a low part, `LOW_PART_DIGITS`. */
  const LOW_PART_DIGITS: nat := 8

  // ---------------------------------------------------------------------------
  // CRCs of numbers.

  /** What `sprintf("%0*u", k, v)` writes: v zero-padded to k digits, or all
      of its digits when it has more than k. */
  function PrintfPadded(v: nat, k: nat): seq<bv8>
  {
    if NumDigits(v) > k then Decimal(v) else Padded(v, k)
  }

  /** Below 10^k the printed form is exactly the k-digit padded spelling. */
  lemma PrintfPaddedFits(v: nat, k: nat)
    requires 1 <= k && v < Pow10(k)
    ensures PrintfPadded(v, k) == Padded(v, k)
    ensures |Padded(v, k)| == k && AllDigits(Padded(v, k)) && ParseDecimal(Padded(v, k)) == v
  {
    NumDigitsBound(v, k);
    PaddedRoundTrip(v, k);
  }

  /** Copies a byte string into a fresh buffer, the `char buf[32]` filled by
      `sprintf`. */
  method ToBuffer(s: seq<bv8>) returns (buf: array<bv8>)
    ensures fresh(buf) && buf[..] == s
  {
    buf := new bv8[|s|](i requires 0 <= i < |s| => s[i]);
  }

  /** `crc32_numeric_padded`: the CRC of value printed with `%0*u`, by the
      table loop of `crc32_fast`. */
  method Crc32NumericPadded(value: nat, digits: nat) returns (crc: bv32)
    requires value < 0x1_0000_0000
    ensures crc == Crc32(PrintfPadded(value, digits))
  {
    var buf := ToBuffer(PrintfPadded(value, digits));
    crc := Crc32Fast(buf, buf.Length);
    assert buf[..buf.Length] == buf[..];
  }

  /** `crc32_numeric`: the CRC of value printed with `%I64u`. */
  method Crc32Numeric(value: nat) returns (crc: bv32)
    requires value < 0x1_0000_0000_0000_0000
    ensures crc == Crc32(Decimal(value))
  {
    var buf := ToBuffer(Decimal(value));
    crc := Crc32Fast(buf, buf.Length);
    assert buf[..buf.Length] == buf[..];
  }

  // ---------------------------------------------------------------------------
  // Ordering.

  /** `crc_entry_compare`: the three-way comparison of two entries by CRC
      alone; entries with equal CRCs compare equal whatever their low parts. */
  function CompareEntries(a: CrcEntry, b: CrcEntry): (r: int)
    ensures r == -1 || r == 0 || r == 1
    ensures r < 0 <==> a.crc < b.crc
    ensures r > 0 <==> b.crc < a.crc
    ensures r == 0 <==> a.crc == b.crc
  {
    if a.crc < b.crc then -1 else if a.crc > b.crc then 1 else 0
  }

  /** The comparison is antisymmetric, as `qsort` requires. */
  lemma CompareAntisymmetric(a: CrcEntry, b: CrcEntry)
    ensures CompareEntries(a, b) == -CompareEntries(b, a)
  {
  }

  predicate Sorted(t: seq<CrcEntry>)
  {
    forall i, j :: 0 <= i < j < |t| ==> t[i].crc <= t[j].crc
  }

  /** x placed before the first entry of the sorted s with a larger CRC. */
  function Insert(x: CrcEntry, s: seq<CrcEntry>): (r: seq<CrcEntry>)
    requires Sorted(s)
    ensures Sorted(r) && multiset(r) == multiset(s) + multiset{x}
    ensures forall e :: e in r ==> e == x || e in s
    decreases |s|
  {
    if s == [] then [x]
    else if x.crc <= s[0].crc then [x] + s
    else
      var rest := Insert(x, s[1..]);
      assert s == [s[0]] + s[1..];
      assert forall e :: e in rest ==> s[0].crc <= e.crc;
      SortedCons(s[0], rest);
      [s[0]] + rest
  }

  /** An entry no larger than every entry of a sorted sequence can go first. */
  lemma SortedCons(a: CrcEntry, t: seq<CrcEntry>)
    requires Sorted(t) && forall e :: e in t ==> a.crc <= e.crc
    ensures Sorted([a] + t)
  {
    var r := [a] + t;
    forall i, j | 0 <= i < j < |r|
      ensures r[i].crc <= r[j].crc
    {
      assert r[j] == t[j - 1];
      if i == 0 {
        assert t[j - 1] in t;
      } else {
        assert r[i] == t[i - 1];
      }
    }
  }

  /** The table sorted by CRC, standing for the `qsort` call with
      `crc_entry_compare`. */
  function SortByCrc(s: seq<CrcEntry>): (r: seq<CrcEntry>)
    ensures Sorted(r) && multiset(r) == multiset(s)
    decreases |s|
  {
    if s == [] then []
    else
      assert s == [s[0]] + s[1..];
      Insert(s[0], SortByCrc(s[1..]))
  }

  // ---------------------------------------------------------------------------
  // The table.

  /** Entry i as the filling loop of `build_table` writes it: the CRC of i
      printed with k digits, and i. */
  function Entry(i: nat, k: nat): CrcEntry
  {
    CrcEntry(Num(Crc32(PrintfPadded(i, k))), i)
  }

  /** The entries as the filling loop leaves them, in order of low part. */
  function Entries(n: nat, k: nat): (r: seq<CrcEntry>)
    ensures |r| == n && forall i :: 0 <= i < n ==> r[i] == Entry(i, k)
  {
    seq(n, i requires 0 <= i < n => Entry(i, k))
  }

  /** A table as `build_table` leaves it: the entries of every low part below
      n, each once, sorted by CRC. */
  ghost predicate IsTable(t: seq<CrcEntry>, n: nat, k: nat)
  {
    Sorted(t) && multiset(t) == multiset(Entries(n, k))
  }

  /** The parallel filling loop of `build_table`. */
  method FillTable(table: array<CrcEntry>)
    requires table.Length <= 0x1_0000_0000
    modifies table
    ensures table[..] == Entries(table.Length, LOW_PART_DIGITS)
  {
    for i := 0 to table.Length
      invariant forall j :: 0 <= j < i ==> table[j] == Entry(j, LOW_PART_DIGITS)
    {
      var c := Crc32NumericPadded(i, LOW_PART_DIGITS);
      table[i] := CrcEntry(Num(c), i);
    }
  }

  /** Overwrites the table with the given contents. */
  method Store(table: array<CrcEntry>, s: seq<CrcEntry>)
    requires |s| == table.Length
    modifies table
    ensures table[..] == s
  {
    for i := 0 to table.Length
      invariant forall j :: 0 <= j < i ==> table[j] == s[j]
    {
      table[i] := s[i];
    }
  }

  /** `build_table`: fill entry i with (CRC of i padded to LOW_PART_DIGITS, i),
      then sort by CRC. The table's length stands for LOW_PART_LIMIT. */
  method BuildTable(table: array<CrcEntry>)
    requires table.Length <= 0x1_0000_0000
    modifies table
    ensures IsTable(table[..], table.Length, LOW_PART_DIGITS)
  {
    FillTable(table);
    Store(table, SortByCrc(table[..]));
  }

  // ---------------------------------------------------------------------------
  // The run of a key.

  /** The low parts of the entries whose CRC is key, in table order. */
  function LowsOf(t: seq<CrcEntry>, key: u32): seq<nat>
    decreases |t|
  {
    if t == [] then []
    else (if t[0].crc == key then [t[0].low] else []) + LowsOf(t[1..], key)
  }

  /** The low parts of all entries of t, in order. */
  function Lows(t: seq<CrcEntry>): (r: seq<nat>)
    ensures |r| == |t| && forall i :: 0 <= i < |t| ==> r[i] == t[i].low
  {
    seq(|t|, i requires 0 <= i < |t| => t[i].low)
  }

  lemma {:induction false} LowsOfAppend(a: seq<CrcEntry>, b: seq<CrcEntry>, key: u32)
    ensures LowsOf(a + b, key) == LowsOf(a, key) + LowsOf(b, key)
    decreases |a|
  {
    if a != [] {
      var head := if a[0].crc == key then [a[0].low] else [];
      assert (a + b)[0] == a[0];
      assert (a + b)[1..] == a[1..] + b;
      LowsOfAppend(a[1..], b, key);
      assert LowsOf(a + b, key) == head + (LowsOf(a[1..], key) + LowsOf(b, key));
      assert LowsOf(a, key) == head + LowsOf(a[1..], key);
    } else {
      assert a + b == b;
    }
  }

  lemma {:induction false} LowsOfNone(t: seq<CrcEntry>, key: u32)
    requires forall i :: 0 <= i < |t| ==> t[i].crc != key
    ensures LowsOf(t, key) == []
    decreases |t|
  {
    if t != [] {
      LowsOfNone(t[1..], key);
    }
  }

  lemma {:induction false} LowsOfAll(t: seq<CrcEntry>, key: u32)
    requires forall i :: 0 <= i < |t| ==> t[i].crc == key
    ensures LowsOf(t, key) == Lows(t)
    decreases |t|
  {
    if t != [] {
      LowsOfAll(t[1..], key);
    }
  }

  /** Membership in the run: a low part is listed for key exactly when some
      entry carries both. */
  lemma {:induction false} InLowsOf(t: seq<CrcEntry>, key: u32, low: nat)
    ensures low in LowsOf(t, key) <==> CrcEntry(key, low) in t
    decreases |t|
  {
    if t != [] {
      InLowsOf(t[1..], key, low);
      assert t == [t[0]] + t[1..];
    }
  }

  /** In a sorted table the entries of key form one contiguous run, so the
      run from start to end, bounded by other keys, is all of them. */
  lemma RunIsAll(t: seq<CrcEntry>, key: u32, start: nat, end: nat)
    requires Sorted(t) && start <= end < |t|
    requires forall i :: start <= i <= end ==> t[i].crc == key
    requires start == 0 || t[start - 1].crc != key
    requires end == |t| - 1 || t[end + 1].crc != key
    ensures LowsOf(t, key) == Lows(t[start..end + 1])
  {
    var before, after := t[..start], t[end + 1..];
    SortedBelow(t, key, start, before);
    SortedAbove(t, key, end, after);
    RunBetween(t, key, start, end, before, after);
  }

  /** A run of key with no other entry of key before or after it is all of
      them. */
  lemma RunBetween(t: seq<CrcEntry>, key: u32, start: nat, end: nat, before: seq<CrcEntry>, after: seq<CrcEntry>)
    requires start <= end < |t| && before == t[..start] && after == t[end + 1..]
    requires forall i :: start <= i <= end ==> t[i].crc == key
    requires forall i :: 0 <= i < |before| ==> before[i].crc != key
    requires forall i :: 0 <= i < |after| ==> after[i].crc != key
    ensures LowsOf(t, key) == Lows(t[start..end + 1])
  {
    var run := t[start..end + 1];
    assert LowsOf(before, key) == [] by {
      LowsOfNone(before, key);
    }
    assert LowsOf(after, key) == [] by {
      LowsOfNone(after, key);
    }
    assert LowsOf(run, key) == Lows(run) by {
      LowsOfAll(run, key);
    }
    LowsOfSplit(t, start, end + 1, key);
    assert [] + Lows(run) + [] == Lows(run);
  }

  /** The run of key in t, read in three consecutive pieces. */
  lemma LowsOfSplit(t: seq<CrcEntry>, i: nat, j: nat, key: u32)
    requires i <= j <= |t|
    ensures LowsOf(t, key) == LowsOf(t[..i], key) + LowsOf(t[i..j], key) + LowsOf(t[j..], key)
  {
    assert t == t[..i] + t[i..j] + t[j..];
    LowsOfAppend(t[..i] + t[i..j], t[j..], key);
    LowsOfAppend(t[..i], t[i..j], key);
  }

  /** Left of a run of key bounded by another key, no entry has the key. */
  lemma SortedBelow(t: seq<CrcEntry>, key: u32, start: nat, before: seq<CrcEntry>)
    requires Sorted(t) && start < |t| && t[start].crc == key
    requires start == 0 || t[start - 1].crc != key
    requires before == t[..start]
    ensures forall i :: 0 <= i < |before| ==> before[i].crc != key
  {
    forall i | 0 <= i < |before|
      ensures before[i].crc != key
    {
      assert t[i].crc <= t[start - 1].crc <= t[start].crc;
    }
  }

  /** Right of a run of key bounded by another key, no entry has the key. */
  lemma SortedAbove(t: seq<CrcEntry>, key: u32, end: nat, after: seq<CrcEntry>)
    requires Sorted(t) && end < |t| && t[end].crc == key
    requires end == |t| - 1 || t[end + 1].crc != key
    requires after == t[end + 1..]
    ensures forall i :: 0 <= i < |after| ==> after[i].crc != key
  {
    forall i | 0 <= i < |after|
      ensures after[i].crc != key
    {
      assert t[end].crc <= t[end + 1].crc <= t[end + 1 + i].crc;
    }
  }

  /** A key that a sorted table brackets (every entry left of `left` below,
      every entry right of `right` above, nothing between) is absent. */
  lemma Absent(t: seq<CrcEntry>, key: u32, left: int, right: int)
    requires 0 <= left && left == right + 1 && right < |t|
    requires forall i :: 0 <= i < left ==> t[i].crc < key
    requires forall i :: right < i < |t| ==> key < t[i].crc
    ensures LowsOf(t, key) == []
  {
    LowsOfNone(t, key);
  }

  /** For a table built by `build_table`, the run of key lists exactly the
      low parts below n whose padded spelling has CRC key. */
  lemma TableRun(t: seq<CrcEntry>, n: nat, k: nat, key: u32, low: nat)
    requires IsTable(t, n, k)
    ensures low in LowsOf(t, key) <==> low < n && Num(Crc32(PrintfPadded(low, k))) == key
  {
    InLowsOf(t, key, low);
    var e := CrcEntry(key, low);
    assert e in t <==> e in multiset(t);
    assert e in Entries(n, k) <==> e in multiset(Entries(n, k));
    if low < n && Num(Crc32(PrintfPadded(low, k))) == key {
      assert Entries(n, k)[low] == Entry(low, k) == e;
    }
  }

  // ---------------------------------------------------------------------------
  // `find_candidates`.

  function Max0(m: int): nat { if m < 0 then 0 else m }

  function Min(a: nat, b: nat): nat { if a < b then a else b }

  /** Step 1 of a hit: walk left while the previous entry has the key. */
  method ExpandLeft(table: array<CrcEntry>, key: u32, mid: nat) returns (start: nat)
    requires mid < table.Length && table[mid].crc == key
    ensures start <= mid && (start == 0 || table[start - 1].crc != key)
    ensures forall i :: start <= i <= mid ==> table[i].crc == key
  {
    start := mid;
    while start > 0 && table[start - 1].crc == key
      invariant start <= mid
      invariant forall i :: start <= i <= mid ==> table[i].crc == key
    {
      start := start - 1;
    }
  }

  /** Step 2 of a hit: walk right while the next entry has the key. */
  method ExpandRight(table: array<CrcEntry>, key: u32, mid: nat) returns (end: nat)
    requires mid < table.Length && table[mid].crc == key
    ensures mid <= end < table.Length && (end == table.Length - 1 || table[end + 1].crc != key)
    ensures forall i :: mid <= i <= end ==> table[i].crc == key
  {
    end := mid;
    while end < table.Length - 1 && table[end + 1].crc == key
      invariant mid <= end < table.Length
      invariant forall i :: mid <= i <= end ==> table[i].crc == key
    {
      end := end + 1;
    }
  }

  /** Step 3 of a hit: copy the low parts of start..end, at most maxResults
      of them. */
  method CollectRun(table: array<CrcEntry>, start: nat, end: nat, lowResults: array<nat>, maxResults: int)
    returns (count: nat)
    requires start <= end < table.Length && maxResults <= lowResults.Length
    modifies lowResults
    ensures count == Min(end - start + 1, Max0(maxResults))
    ensures forall i :: 0 <= i < count ==> lowResults[i] == table[start + i].low
    ensures lowResults[count..] == old(lowResults[count..])
  {
    count := 0;
    var i := start;
    while i <= end && count < maxResults
      invariant start <= i <= end + 1 && count == i - start
      invariant count <= Max0(maxResults)
      invariant forall j :: 0 <= j < count ==> lowResults[j] == table[start + j].low
      invariant lowResults[count..] == old(lowResults[count..])
    {
      lowResults[count] := table[i].low;
      count := count + 1;
      i := i + 1;
    }
  }

  /** The collected low parts are the first count of the run of key. */
  lemma CollectedRun(t: seq<CrcEntry>, key: u32, start: nat, end: nat, got: seq<nat>)
    requires Sorted(t) && start <= end < |t|
    requires forall i :: start <= i <= end ==> t[i].crc == key
    requires start == 0 || t[start - 1].crc != key
    requires end == |t| - 1 || t[end + 1].crc != key
    requires |got| <= end - start + 1
    requires forall i :: 0 <= i < |got| ==> got[i] == t[start + i].low
    ensures |LowsOf(t, key)| == end - start + 1 && got == LowsOf(t, key)[..|got|]
  {
    RunIsAll(t, key, start, end);
  }

  /** Every collected low part belongs to an entry with the key. */
  lemma CollectedSound(t: seq<CrcEntry>, key: u32, j: nat)
    requires j < |t| && t[j].crc == key
    ensures t[j].low in LowsOf(t, key)
  {
    InLowsOf(t, key, t[j].low);
    assert t[j] == CrcEntry(key, t[j].low);
  }

  /** `find_candidates`: binary search for key; on a hit, expand to the whole
      run of equal CRCs and copy its low parts, at most maxResults of them,
      returning how many; 0 when the key is absent. Whatever the table, every
      reported low part comes from an entry with the key; on a sorted table
      the report is the run of the key, cut at maxResults. */
  method FindCandidates(table: array<CrcEntry>, key: u32, lowResults: array<nat>, maxResults: int)
    returns (count: nat)
    requires maxResults <= lowResults.Length
    modifies lowResults
    ensures count <= Max0(maxResults)
    ensures forall i :: 0 <= i < count ==> lowResults[i] in LowsOf(table[..], key)
    ensures Sorted(table[..]) ==>
              count == Min(|LowsOf(table[..], key)|, Max0(maxResults))
              && lowResults[..count] == LowsOf(table[..], key)[..count]
    ensures lowResults[count..] == old(lowResults[count..])
  {
    var left, right := 0, table.Length - 1;
    while left <= right
      invariant 0 <= left <= right + 1 <= table.Length
      invariant Sorted(table[..]) ==> forall i :: 0 <= i < left ==> table[i].crc < key
      invariant Sorted(table[..]) ==> forall i :: right < i < table.Length ==> key < table[i].crc
      decreases right - left
    {
      var mid := left + (right - left) / 2;
      if table[mid].crc == key {
        var start := ExpandLeft(table, key, mid);
        var end := ExpandRight(table, key, mid);
        count := CollectRun(table, start, end, lowResults, maxResults);
        forall i | 0 <= i < count ensures lowResults[i] in LowsOf(table[..], key) {
          CollectedSound(table[..], key, start + i);
        }
        if Sorted(table[..]) {
          CollectedRun(table[..], key, start, end, lowResults[..count]);
        }
        return;
      }
      if table[mid].crc < key {
        left := mid + 1;
      } else {
        right := mid - 1;
      }
    }
    if Sorted(table[..]) {
      Absent(table[..], key, left, right);
    }
    count := 0;
  }
}
