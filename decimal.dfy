/** Canonical decimal ASCII for unsigned integers, as produced by
    `fast_uid_to_str` (include/utils.h and bilitrace_local.c), by `sprintf("%u")`
    and by Python's `str(int)`, plus the zero-padded form `sprintf("%0*u")`. */
module DecimalString {

  /** ASCII code of the character '0'. */
  const ZERO: bv8 := 0x30

  function Pow10(k: nat): (p: nat)
    ensures p >= 1
  {
    if k == 0 then 1 else 10 * Pow10(k - 1)
  }

  lemma Pow10Values()
    ensures Pow10(8) == 100_000_000
    ensures Pow10(16) == 10_000_000_000_000_000
  {
    assert Pow10(4) == 10_000;
    assert Pow10(8) == 100_000_000;
    assert Pow10(12) == 1_000_000_000_000;
  }

  /** The ASCII character of the decimal digit d. */
  function DigitChar(d: nat): (c: bv8)
    requires d < 10
    ensures 0x30 <= c <= 0x39
  {
    ZERO + d as bv8
  }

  predicate IsDigit(c: bv8) { 0x30 <= c <= 0x39 }

  predicate AllDigits(s: seq<bv8>) { forall i :: 0 <= i < |s| ==> IsDigit(s[i]) }

  /** The significant digits of n, most significant first; empty for 0. */
  function Digits(n: nat): seq<bv8>
    decreases n
  {
    if n == 0 then [] else Digits(n / 10) + [DigitChar(n % 10)]
  }

  /** The canonical decimal spelling of n: "0" for zero, otherwise its digits. */
  function Decimal(n: nat): seq<bv8>
  {
    if n == 0 then [ZERO] else Digits(n)
  }

  /** n written with exactly k digits, the way `sprintf("%0*u", k, n)` does for n < 10^k. */
  function Padded(n: nat, k: nat): seq<bv8>
    decreases k
  {
    if k == 0 then [] else Padded(n / 10, k - 1) + [DigitChar(n % 10)]
  }

  /** Reads a digit string back, most significant first. */
  function ParseDecimal(s: seq<bv8>): nat
    requires AllDigits(s)
    decreases |s|
  {
    if s == [] then 0 else 10 * ParseDecimal(s[..|s| - 1]) + (s[|s| - 1] - ZERO) as nat
  }

  /** Number of significant digits of n (1 for 0, as `fast_uid_to_str` writes "0"). */
  function NumDigits(n: nat): nat
    decreases n
  {
    if n < 10 then 1 else 1 + NumDigits(n / 10)
  }

  /** The digits of n least significant first, the order in which repeated
      division by ten produces them; empty for 0. */
  function LowDigits(n: nat): seq<bv8>
    decreases n
  {
    if n == 0 then [] else [DigitChar(n % 10)] + LowDigits(n / 10)
  }

  function Rev<T>(s: seq<T>): seq<T>
    decreases |s|
  {
    if s == [] then [] else Rev(s[1..]) + [s[0]]
  }

  lemma {:induction false} RevAt<T>(s: seq<T>, i: nat)
    requires i < |s|
    ensures |Rev(s)| == |s| && Rev(s)[i] == s[|s| - 1 - i]
    decreases |s|
  {
    RevLength(s);
    if i < |s| - 1 {
      RevAt(s[1..], i);
    }
  }

  lemma {:induction false} RevLength<T>(s: seq<T>)
    ensures |Rev(s)| == |s|
    decreases |s|
  {
    if s != [] { RevLength(s[1..]); }
  }

  /** Reversing the division order gives the spelling order. */
  lemma {:induction false} DigitsAreReversedLowDigits(n: nat)
    ensures Digits(n) == Rev(LowDigits(n))
    decreases n
  {
    if n > 0 {
      DigitsAreReversedLowDigits(n / 10);
      assert LowDigits(n)[1..] == LowDigits(n / 10);
    }
  }

  lemma {:induction false} DigitsAreDigits(n: nat)
    ensures AllDigits(Digits(n))
    decreases n
  {
    if n > 0 { DigitsAreDigits(n / 10); }
  }

  lemma {:induction false} DigitsRoundTrip(n: nat)
    ensures AllDigits(Digits(n)) && ParseDecimal(Digits(n)) == n
    decreases n
  {
    DigitsAreDigits(n);
    if n > 0 {
      var s := Digits(n);
      assert s[..|s| - 1] == Digits(n / 10);
      DigitsRoundTrip(n / 10);
    }
  }

  /** Reading the decimal spelling back gives the number: the encoding loses nothing. */
  lemma DecimalRoundTrip(n: nat)
    ensures AllDigits(Decimal(n)) && ParseDecimal(Decimal(n)) == n
  {
    if n == 0 {
      assert Decimal(0)[..0] == [];
    } else {
      DigitsRoundTrip(n);
    }
  }

  /** Distinct numbers have distinct spellings. */
  lemma DecimalInjective(m: nat, n: nat)
    ensures Decimal(m) == Decimal(n) ==> m == n
  {
    DecimalRoundTrip(m);
    DecimalRoundTrip(n);
  }

  lemma {:induction false} DigitsShape(n: nat)
    requires n > 0
    ensures |Digits(n)| == NumDigits(n)
    ensures Digits(n)[0] != ZERO
    decreases n
  {
    if n >= 10 {
      DigitsShape(n / 10);
    }
  }

  /** The spelling is canonical: it has NumDigits(n) characters, all digits,
      and only zero itself starts with '0'. */
  lemma DecimalCanonical(n: nat)
    ensures |Decimal(n)| == NumDigits(n) >= 1
    ensures AllDigits(Decimal(n))
    ensures Decimal(n)[0] == ZERO <==> n == 0
  {
    DecimalRoundTrip(n);
    if n > 0 { DigitsShape(n); }
  }

  /** The digit count fits a decimal field of width k exactly when n < 10^k. */
  lemma {:induction false} NumDigitsBound(n: nat, k: nat)
    ensures NumDigits(n) <= k <==> (k >= 1 && n < Pow10(k))
    decreases n
  {
    if n >= 10 {
      if k >= 1 { NumDigitsBound(n / 10, k - 1); }
    }
  }

  lemma {:induction false} PaddedRoundTrip(n: nat, k: nat)
    requires n < Pow10(k)
    ensures |Padded(n, k)| == k && AllDigits(Padded(n, k)) && ParseDecimal(Padded(n, k)) == n
    decreases k
  {
    if k > 0 {
      var s := Padded(n, k);
      PaddedRoundTrip(n / 10, k - 1);
      assert s[..|s| - 1] == Padded(n / 10, k - 1);
      assert ParseDecimal(s) == 10 * (n / 10) + n % 10;
    }
  }

  /** h followed by the k low digits of low: h * 10^k + low % 10^k, built digit by digit. */
  function Join(h: nat, low: nat, k: nat): nat
    decreases k
  {
    if k == 0 then h else 10 * Join(h, low / 10, k - 1) + low % 10
  }

  lemma {:induction false} JoinIsArithmetic(h: nat, low: nat, k: nat)
    requires low < Pow10(k)
    ensures Join(h, low, k) == h * Pow10(k) + low
    decreases k
  {
    if k > 0 {
      var p := Pow10(k - 1);
      assert Pow10(k) == 10 * p;
      DivBound(low, p);
      JoinIsArithmetic(h, low / 10, k - 1);
      calc {
        Join(h, low, k);
        10 * Join(h, low / 10, k - 1) + low % 10;
        10 * (h * p + low / 10) + low % 10;
        { MulAssoc10(h, p); }
        h * (10 * p) + (10 * (low / 10) + low % 10);
        h * Pow10(k) + low;
      }
    }
  }

  lemma DivBound(low: nat, p: nat)
    requires low < 10 * p
    ensures low / 10 < p
  {
  }

  lemma MulAssoc10(h: nat, p: nat)
    ensures 10 * (h * p) == h * (10 * p)
  {
  }

  lemma {:induction false} DigitsJoin(h: nat, low: nat, k: nat)
    requires h >= 1
    ensures Join(h, low, k) >= 1
    ensures Digits(Join(h, low, k)) == Digits(h) + Padded(low, k)
    decreases k
  {
    if k > 0 {
      var q := Join(h, low / 10, k - 1);
      DigitsJoin(h, low / 10, k - 1);
      var n := 10 * q + low % 10;
      assert n / 10 == q && n % 10 == low % 10;
      assert Digits(n) == Digits(q) + [DigitChar(low % 10)];
    }
  }

  /** For a non-zero high part h the decimal spelling of h * 10^k + low is
      the spelling of h followed by low zero-padded to k digits. */
  lemma DecimalConcat(h: nat, low: nat, k: nat)
    requires h >= 1 && low < Pow10(k)
    ensures Decimal(h * Pow10(k) + low) == Decimal(h) + Padded(low, k)
  {
    DigitsJoin(h, low, k);
    JoinIsArithmetic(h, low, k);
  }

  /** What the scratch array of `fast_uid_to_str` holds for n > 0: at most 16
      digits for n < 10^16, and the spelling of n once reversed. */
  lemma LowDigitsSpelling(n: nat)
    requires 0 < n
    ensures |LowDigits(n)| == |Decimal(n)| == NumDigits(n)
    ensures Rev(LowDigits(n)) == Decimal(n)
  {
    DigitsShape(n);
    DigitsAreReversedLowDigits(n);
    RevLength(LowDigits(n));
  }

  /** The largest value of each width the model spells, and its digits:
      ten for 32 bits, sixteen below 10^16, twenty for 64 bits. */
  lemma WidthDigits(n: nat)
    ensures n < 0x1_0000_0000 ==> NumDigits(n) <= 10
    ensures n < 10_000_000_000_000_000 ==> NumDigits(n) <= 16
    ensures n < 0x1_0000_0000_0000_0000 ==> NumDigits(n) <= 20
  {
    Pow10Values();
    NumDigitsBound(n, 10);
    NumDigitsBound(n, 16);
    NumDigitsBound(n, 20);
  }

  /** `fast_uid_to_str` (include/utils.h:25-49) takes a 64-bit value but
      collects its digits in a 16-byte scratch array: from 10^16 on the
      seventeenth digit is written past its end, and the largest 64-bit
      value has twenty. */
  lemma ScratchOverrun(n: nat)
    requires 10_000_000_000_000_000 <= n < 0x1_0000_0000_0000_0000
    ensures |LowDigits(n)| == NumDigits(n) > 16
    ensures NumDigits(0xFFFF_FFFF_FFFF_FFFF) == 20
  {
    Pow10Values();
    NumDigitsBound(n, 16);
    LowDigitsSpelling(n);
    NumDigitsBound(0xFFFF_FFFF_FFFF_FFFF, 20);
    NumDigitsBound(0xFFFF_FFFF_FFFF_FFFF, 19);
  }

  /** The digit loop of `fast_uid_to_str`: temp receives the digits of n
      least significant first. */
  method CollectLowDigits(n: nat, temp: array<bv8>) returns (len: nat)
    requires |LowDigits(n)| <= temp.Length
    modifies temp
    ensures len == |LowDigits(n)| && temp[..len] == LowDigits(n)
  {
    var m: nat := n;
    len := 0;
    ghost var out: seq<bv8> := [];
    while m > 0
      invariant len + |LowDigits(m)| <= temp.Length
      invariant out == temp[..len]
      invariant out + LowDigits(m) == LowDigits(n)
      decreases m
    {
      var c := DigitChar(m % 10);
      temp[len] := c;
      assert LowDigits(m) == [c] + LowDigits(m / 10);
      assert out + LowDigits(m) == (out + [c]) + LowDigits(m / 10);
      out := out + [c];
      m := m / 10;
      len := len + 1;
    }
    assert out + [] == out;
  }

  /** `fast_uid_to_str` with a scratch array of the given width: writes the
      decimal spelling of n to buf[0..len), no terminator, and returns len. */
  method SpellDecimal(n: nat, buf: array<bv8>, width: nat) returns (len: nat)
    requires NumDigits(n) <= width && NumDigits(n) <= buf.Length
    modifies buf
    ensures len == NumDigits(n) && buf[..len] == Decimal(n)
    ensures buf[len..] == old(buf[len..])
  {
    if n == 0 {
      buf[0] := ZERO;
      return 1;
    }
    var temp := new bv8[width];
    LowDigitsSpelling(n);
    len := CollectLowDigits(n, temp);
    CopyReversed(temp, len, buf, Decimal(n));
  }

  /** `fast_uid_to_str` (include/utils.h:25-49) as written, with its 16-byte
      scratch array: the spelling of n for every n below 10^16. */
  method FastUidToStr(n: nat, buf: array<bv8>) returns (len: nat)
    requires n < 10_000_000_000_000_000
    requires NumDigits(n) <= buf.Length
    modifies buf
    ensures len == NumDigits(n) && buf[..len] == Decimal(n)
    ensures buf[len..] == old(buf[len..])
  {
    WidthDigits(n);
    len := SpellDecimal(n, buf, 16);
  }

  /** `fast_uid_to_str` with a scratch array of twenty bytes, enough for
      every 64-bit value. */
  method FastUidToStrWide(n: nat, buf: array<bv8>) returns (len: nat)
    requires n < 0x1_0000_0000_0000_0000
    requires NumDigits(n) <= buf.Length
    modifies buf
    ensures len == NumDigits(n) && buf[..len] == Decimal(n)
    ensures buf[len..] == old(buf[len..])
  {
    WidthDigits(n);
    len := SpellDecimal(n, buf, 20);
  }

  /** The closing loop of `fast_uid_to_str`: buf[i] = temp[len - 1 - i] for
      i < len, walking the scratch pointer back down. */
  method CopyReversed(temp: array<bv8>, len: nat, buf: array<bv8>, ghost spelled: seq<bv8>)
    requires len <= temp.Length && len <= buf.Length && temp != buf
    requires spelled == Rev(temp[..len])
    modifies buf
    ensures buf[..len] == spelled
    ensures buf[len..] == old(buf[len..])
  {
    ghost var out := temp[..len];
    RevLength(out);
    var i := 0;
    while i < len
      invariant i <= len
      invariant forall j :: 0 <= j < i ==> buf[j] == spelled[j]
      invariant buf[len..] == old(buf[len..])
    {
      RevAt(out, i);
      buf[i] := temp[len - 1 - i];
      i := i + 1;
    }
    assert buf[..len] == spelled;
  }

  /** The `uint32_t` variant of `fast_uid_to_str` (bilitrace_local.c:74-95)
      runs the same steps with the same 16-byte scratch array; a 32-bit value
      has at most ten digits. */
  method FastUidToStr32(n: nat, buf: array<bv8>) returns (len: nat)
    requires n < 0x1_0000_0000
    requires NumDigits(n) <= buf.Length
    modifies buf
    ensures len == NumDigits(n) && buf[..len] == Decimal(n)
    ensures buf[len..] == old(buf[len..])
  {
    WidthDigits(n);
    len := SpellDecimal(n, buf, 16);
  }
}
