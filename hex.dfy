/** Hexadecimal text as the tools read and print it: the target hash of every
    cracker is read with `(uint32_t)strtoul(s, NULL, 16)` (cracker.c,
    find_all_collisions.c, bilitrace_local.c, mitm_cracker.c), and hashes are
    printed with `%08x`. `unsigned long` is taken to be 32 bits wide, as on
    the Windows toolchain the programs are written for. */
module HexParse {

  /** ULONG_MAX for a 32-bit `unsigned long`: what `strtoul` returns on overflow. */
  const ULONG_MAX: nat := 0xFFFF_FFFF

  predicate IsHexDigit(c: char)
  {
    ('0' <= c <= '9') || ('a' <= c <= 'f') || ('A' <= c <= 'F')
  }

  function HexValue(c: char): (d: nat)
    requires IsHexDigit(c)
    ensures d < 16
  {
    if '0' <= c <= '9' then (c - '0') as nat
    else if 'a' <= c <= 'f' then (c - 'a') as nat + 10
    else (c - 'A') as nat + 10
  }

  /** The lower-case digit `%x` prints for d. */
  function HexChar(d: nat): (c: char)
    requires d < 16
    ensures IsHexDigit(c) && HexValue(c) == d
  {
    if d < 10 then '0' + d as char else 'a' + (d - 10) as char
  }

  /** `isspace` in the C locale. */
  predicate IsSpace(c: char)
  {
    c == ' ' || c == '\t' || c == '\n' || c == '\r' || c == '\U{B}' || c == '\U{C}'
  }

  /** Length of the longest prefix of s made of hex digits. */
  function HexRun(s: seq<char>): (n: nat)
    ensures n <= |s|
    ensures forall i :: 0 <= i < n ==> IsHexDigit(s[i])
    ensures n < |s| ==> !IsHexDigit(s[n])
  {
    if s == [] || !IsHexDigit(s[0]) then 0 else 1 + HexRun(s[1..])
  }

  /** The value of a string of hex digits, most significant first. */
  function HexNat(s: seq<char>): nat
    requires forall i :: 0 <= i < |s| ==> IsHexDigit(s[i])
    decreases |s|
  {
    if s == [] then 0 else 16 * HexNat(s[..|s| - 1]) + HexValue(s[|s| - 1])
  }

  function DropSpace(s: seq<char>): (r: seq<char>)
    ensures r == [] || !IsSpace(r[0])
    ensures |r| <= |s| && r == s[|s| - |r|..]
  {
    if s != [] && IsSpace(s[0]) then DropSpace(s[1..]) else s
  }

  /** The magnitude `strtoul` reads in base 16: an optional "0x" or "0X"
      prefix, then the longest run of hex digits (none reads as 0). */
  function HexMagnitude(s: seq<char>): nat
  {
    var t := if |s| >= 2 && s[0] == '0' && (s[1] == 'x' || s[1] == 'X') then s[2..] else s;
    HexNat(t[..HexRun(t)])
  }

  /** `strtoul(s, NULL, 16)`: leading white space is skipped, a sign is
      accepted, and a magnitude above ULONG_MAX saturates to ULONG_MAX; a
      negated magnitude wraps modulo 2^32. */
  function StrToUL(s: seq<char>): (r: nat)
    ensures r <= ULONG_MAX
  {
    var t := DropSpace(s);
    var neg := t != [] && t[0] == '-';
    var u := if t != [] && (t[0] == '-' || t[0] == '+') then t[1..] else t;
    var m := HexMagnitude(u);
    if m > ULONG_MAX then ULONG_MAX
    else if neg then (ULONG_MAX + 1 - m) % (ULONG_MAX + 1)
    else m
  }

  /** The k lowest hex digits of v, zero-padded, as `%0kx` prints them. */
  function HexPadded(v: nat, k: nat): (s: seq<char>)
    ensures |s| == k && forall i :: 0 <= i < k ==> IsHexDigit(s[i])
    decreases k
  {
    if k == 0 then [] else HexPadded(v / 16, k - 1) + [HexChar(v % 16)]
  }

  function Pow16(k: nat): (p: nat)
    ensures p >= 1
  {
    if k == 0 then 1 else 16 * Pow16(k - 1)
  }

  lemma {:induction false} HexPaddedValue(v: nat, k: nat)
    requires v < Pow16(k)
    ensures HexNat(HexPadded(v, k)) == v
    decreases k
  {
    if k > 0 {
      var s := HexPadded(v, k);
      assert s[..|s| - 1] == HexPadded(v / 16, k - 1);
      HexPaddedValue(v / 16, k - 1);
    }
  }

  lemma Pow16Eight()
    ensures Pow16(8) == ULONG_MAX + 1
  {
  }

  /** A string of hex digits is read to its end. */
  lemma {:induction false} HexRunAll(s: seq<char>)
    requires forall i :: 0 <= i < |s| ==> IsHexDigit(s[i])
    ensures HexRun(s) == |s|
    decreases |s|
  {
    if s != [] { HexRunAll(s[1..]); }
  }

  lemma MagnitudeOfPadded(v: nat)
    requires v <= ULONG_MAX
    ensures HexMagnitude(HexPadded(v, 8)) == v
  {
    var s := HexPadded(v, 8);
    assert s[1] != 'x' && s[1] != 'X';
    HexRunAll(s);
    assert s[..HexRun(s)] == s;
    Pow16Eight();
    HexPaddedValue(v, 8);
  }

  /** `%08x` printing followed by `strtoul` gives back every 32-bit value. */
  lemma HexRoundTrip(v: nat)
    requires v <= ULONG_MAX
    ensures StrToUL(HexPadded(v, 8)) == v
  {
    var s := HexPadded(v, 8);
    MagnitudeOfPadded(v);
    StrToULUnsigned(s);
  }

  /** A string that starts with a hex digit is read with no white space and
      no sign. */
  lemma StrToULUnsigned(s: seq<char>)
    requires |s| > 0 && IsHexDigit(s[0]) && HexMagnitude(s) <= ULONG_MAX
    ensures StrToUL(s) == HexMagnitude(s)
  {
    assert !IsSpace(s[0]) && s[0] != '-' && s[0] != '+';
    assert DropSpace(s) == s;
  }

  /** The target hash of every cracker: `(uint32_t)strtoul(s, NULL, 16)`. */
  function Target(s: seq<char>): bv32
  {
    StrToUL(s) as bv32
  }

  /** A hash printed with `%08x` is read back as the same target. */
  lemma TargetRoundTrip(v: bv32)
    ensures Target(HexPadded(v as nat, 8)) == v
  {
    HexRoundTrip(v as nat);
  }
}
