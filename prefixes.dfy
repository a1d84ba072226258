/** The prefix analyser of scripts/analyze_uid_prefixes.py: the five-digit
    prefixes of the 16-digit uids seen, counted, and turned into the switch
    table `is_valid_16digit_prefix` that accepts a uid by its prefix. */
module Prefixes {
  import opened DecimalString
  import opened Sorting
  import opened Wrappers
  import Whitelist

  /** The prefix length the analyser groups by. */
  const PREFIX_LEN: nat := 5

  /** The divisor the generated C code applies: a 16-digit uid divided by
      10^11 keeps its first five digits. */
  const DIVISOR: nat := 100_000_000_000

  /** `get_prefix`: the first `length` characters of the uid's decimal text,
      or all of it when it is shorter. */
  function GetPrefix(uid: nat, length: nat): (p: seq<bv8>)
    ensures p <= Decimal(uid)
    ensures |p| == if length <= NumDigits(uid) then length else NumDigits(uid)
  {
    DecimalCanonical(uid);
    var s := Decimal(uid);
    if length <= |s| then s[..length] else s
  }

  /** For a 16-digit uid the five-character prefix is the decimal text of
      uid / 10^11, a number of exactly five digits: the string grouping of
      the analyser and the division of the generated C code agree. */
  lemma PrefixIsQuotient(uid: int)
    requires Whitelist.Is16Digit(uid)
    ensures 10_000 <= uid / DIVISOR < 100_000
    ensures GetPrefix(uid, PREFIX_LEN) == Decimal(uid / DIVISOR)
    ensures |GetPrefix(uid, PREFIX_LEN)| == PREFIX_LEN && AllDigits(GetPrefix(uid, PREFIX_LEN))
    ensures ParseDecimal(GetPrefix(uid, PREFIX_LEN)) == uid / DIVISOR
  {
    var h, low := Split(uid);
    SplitSpelling(uid, h, low, 11);
    FiveDigits(h);
    DecimalCanonical(h);
    DecimalRoundTrip(h);
    assert Decimal(uid)[..PREFIX_LEN] == Decimal(h);
  }

  /** A number joined from a high part and k low digits is spelt as the
      high part followed by the low part padded to k digits. */
  lemma SplitSpelling(n: nat, h: nat, low: nat, k: nat)
    requires h >= 1 && low < Pow10(k) && n == h * Pow10(k) + low
    ensures Decimal(n) == Decimal(h) + Padded(low, k)
  {
    DecimalConcat(h, low, k);
  }

  /** A 16-digit uid is a five-digit high part followed by eleven low digits. */
  lemma Split(uid: int) returns (h: nat, low: nat)
    requires Whitelist.Is16Digit(uid)
    ensures h == uid / DIVISOR && 10_000 <= h < 100_000
    ensures low < Pow10(11) && uid == h * Pow10(11) + low
  {
    h, low := uid / DIVISOR, uid % DIVISOR;
    Pow10Values();
    assert Pow10(11) == DIVISOR by {
      assert Pow10(11) == 1000 * Pow10(8);
    }
  }

  /** The numbers from 10^4 up to 10^5 have five digits. */
  lemma FiveDigits(h: nat)
    requires 10_000 <= h < 100_000
    ensures NumDigits(h) == 5
  {
    assert Pow10(4) == 10_000 && Pow10(5) == 100_000;
    NumDigitsBound(h, 5);
    NumDigitsBound(h, 4);
  }

  /** The first five digits of a 16-digit uid decide its prefix and back. */
  lemma SamePrefix(u: int, v: int)
    requires Whitelist.Is16Digit(u) && Whitelist.Is16Digit(v)
    ensures GetPrefix(u, PREFIX_LEN) == GetPrefix(v, PREFIX_LEN) <==> u / DIVISOR == v / DIVISOR
  {
    PrefixIsQuotient(u);
    PrefixIsQuotient(v);
    DecimalInjective(u / DIVISOR, v / DIVISOR);
  }

  /** `analyze_prefixes`: the `Counter` of five-character prefixes of the
      16-digit uids, as a multiset. `order` is the order in which the uid
      set yields its elements. */
  function PrefixCounter(order: seq<int>): multiset<seq<bv8>>
    decreases |order|
  {
    if order == [] then multiset{} else PrefixCounter(order[..|order| - 1]) + Tally(order[|order| - 1])
  }

  /** What one uid adds to the counter: its prefix if it has 16 digits. */
  function Tally(u: int): multiset<seq<bv8>>
  {
    if Whitelist.Is16Digit(u) then multiset{GetPrefix(u, PREFIX_LEN)} else multiset{}
  }

  /** The uids of a set's iteration order are distinct. */
  ghost predicate Distinct(order: seq<int>)
  {
    forall i, j :: 0 <= i < j < |order| ==> order[i] != order[j]
  }

  /** The counts sum to the number of 16-digit uids, and the counter is
      empty exactly when there is none. */
  lemma {:induction false} CounterTotal(order: seq<int>)
    requires Distinct(order)
    ensures |PrefixCounter(order)| == |Whitelist.Sixteen(order)|
    ensures PrefixCounter(order) == multiset{} <==> Whitelist.Sixteen(order) == {}
    decreases |order|
  {
    if order != [] {
      var init, u := order[..|order| - 1], order[|order| - 1];
      assert Distinct(init);
      CounterTotal(init);
      assert u !in init;
      SixteenSnoc(init, u);
      assert order == init + [u];
    }
  }

  /** The 16-digit uids of a sequence with one more uid at its end. */
  lemma SixteenSnoc(init: seq<int>, u: int)
    ensures Whitelist.Sixteen(init + [u]) == Whitelist.Sixteen(init) + if Whitelist.Is16Digit(u) then {u} else {}
  {
  }

  /** A prefix is counted exactly when some 16-digit uid of the set has it. */
  lemma {:induction false} CounterMembers(order: seq<int>, p: seq<bv8>)
    ensures p in PrefixCounter(order)
        <==> exists u :: u in order && Whitelist.Is16Digit(u) && GetPrefix(u, PREFIX_LEN) == p
    decreases |order|
  {
    if order != [] {
      var init, u := order[..|order| - 1], order[|order| - 1];
      assert order == init + [u];
      CounterMembers(init, p);
      if exists v :: v in order && Whitelist.Is16Digit(v) && GetPrefix(v, PREFIX_LEN) == p {
        var v :| v in order && Whitelist.Is16Digit(v) && GetPrefix(v, PREFIX_LEN) == p;
        if v != u {
          assert v in init;
        }
      }
    }
  }

  /** Counting a concatenation adds the counts. */
  lemma {:induction false} CounterConcat(a: seq<int>, b: seq<int>)
    ensures PrefixCounter(a + b) == PrefixCounter(a) + PrefixCounter(b)
    decreases |b|
  {
    if b == [] {
      assert a + b == a;
    } else {
      var init, u := b[..|b| - 1], b[|b| - 1];
      CounterConcat(a, init);
      assert PrefixCounter(a + b) == PrefixCounter(a + init) + Tally(u) by {
        assert (a + b)[..|a + b| - 1] == a + init && (a + b)[|a + b| - 1] == u;
      }
      assert PrefixCounter(b) == PrefixCounter(init) + Tally(u);
      CountsRegroup(PrefixCounter(a), PrefixCounter(init), Tally(u));
    }
  }

  /** The same element taken from equal multisets leaves equal multisets. */
  lemma Cancel(m: multiset<int>, n: multiset<int>, x: int)
    requires m + multiset{x} == n + multiset{x}
    ensures m == n
  {
    forall y
      ensures m[y] == n[y]
    {
      assert (m + multiset{x})[y] == (n + multiset{x})[y];
    }
  }

  /** Adding counts regroups freely. */
  lemma CountsRegroup(x: multiset<seq<bv8>>, y: multiset<seq<bv8>>, z: multiset<seq<bv8>>)
    ensures (x + y) + z == x + (y + z)
  {
  }

  /** The counter does not depend on the order in which the set yields its
      uids: any two orders of the same elements count the same. */
  lemma {:induction false} CounterOrderFree(a: seq<int>, b: seq<int>)
    requires multiset(a) == multiset(b)
    ensures PrefixCounter(a) == PrefixCounter(b)
    decreases |a|
  {
    if a != [] {
      var init, x := a[..|a| - 1], a[|a| - 1];
      assert a == init + [x];
      assert x in multiset(b) by {
        assert x in multiset(a);
      }
      var i :| 0 <= i < |b| && b[i] == x;
      var rest := RemoveAt(b, i);
      assert multiset(init) + multiset{x} == multiset(rest) + multiset{x} by {
        assert multiset(a) == multiset(init) + multiset{x};
      }
      Cancel(multiset(init), multiset(rest), x);
      CounterOrderFree(init, rest);
      CounterConcat(init, [x]);
      CounterConcat(rest, [x]);
      assert PrefixCounter(a) == PrefixCounter(rest + [x]);
    }
  }

  /** Moving one uid of b to the end changes neither its elements nor its
      count: b without b[i], and the count of that plus b[i]. */
  lemma RemoveAt(b: seq<int>, i: nat) returns (rest: seq<int>)
    requires i < |b|
    ensures multiset(b) == multiset(rest) + multiset{b[i]}
    ensures PrefixCounter(b) == PrefixCounter(rest + [b[i]])
  {
    var pre, x, post := b[..i], b[i], b[i + 1..];
    rest := pre + post;
    assert b == pre + ([x] + post);
    assert multiset(b) == multiset(rest) + multiset{b[i]} by {
      assert multiset(b) == multiset(pre) + (multiset{x} + multiset(post));
    }
    CounterConcat(pre, [x] + post);
    CounterConcat([x], post);
    CounterConcat(rest, [x]);
    CounterConcat(pre, post);
    CountsSwap(PrefixCounter(pre), PrefixCounter([x]), PrefixCounter(post));
  }

  /** Adding counts commutes: the middle term can move to the end. */
  lemma CountsSwap(p: multiset<seq<bv8>>, t: multiset<seq<bv8>>, q: multiset<seq<bv8>>)
    ensures p + (t + q) == (p + q) + t
  {
  }

  /** Every counted prefix is five digits without a leading zero, the form
      `int(p)` reads back without merging two prefixes. */
  lemma CounterKeys(order: seq<int>)
    ensures forall p :: p in PrefixCounter(order) ==> |p| == PREFIX_LEN && AllDigits(p) && p[0] != ZERO
  {
    forall p | p in PrefixCounter(order)
      ensures |p| == PREFIX_LEN && AllDigits(p) && p[0] != ZERO
    {
      CounterMembers(order, p);
      var u :| u in order && Whitelist.Is16Digit(u) && GetPrefix(u, PREFIX_LEN) == p;
      PrefixIsQuotient(u);
      DecimalCanonical(u / DIVISOR);
    }
  }

  /** `int(p)` of every counted prefix: the case labels of the switch. */
  function CaseValues(counter: multiset<seq<bv8>>): set<int>
  {
    set p | p in counter && AllDigits(p) :: ParseDecimal(p) as int
  }

  /** `generate_c_code`: the case labels of `is_valid_16digit_prefix`, one
      per distinct prefix, ascending. The counter's keys are five-digit
      prefixes of 16-digit uids, so no two of them share an `int` value. */
  method GenerateCases(counter: multiset<seq<bv8>>) returns (cases: seq<int>)
    requires forall p :: p in counter ==> |p| == PREFIX_LEN && AllDigits(p) && p[0] != ZERO
    ensures Ascending(cases) && Elems(cases) == CaseValues(counter)
  {
    cases := SortSet(CaseValues(counter));
  }

  /** What the generated C function returns for a uid: 1 when uid / 10^11
      is one of the case labels, otherwise 0 from `default`. */
  function Accepts(cases: seq<int>, uid: nat): (r: int)
    ensures r == 0 || r == 1
  {
    if uid / DIVISOR in cases then 1 else 0
  }

  /** The generated table accepts a 16-digit uid exactly when some 16-digit
      uid of the analysed set shares its first five digits. */
  lemma AcceptsSeenPrefix(order: seq<int>, cases: seq<int>, uid: int)
    requires Whitelist.Is16Digit(uid) && Elems(cases) == CaseValues(PrefixCounter(order))
    ensures Accepts(cases, uid) == 1
        <==> exists v :: v in order && Whitelist.Is16Digit(v) && v / DIVISOR == uid / DIVISOR
    ensures Accepts(cases, uid) == 1 <==> GetPrefix(uid, PREFIX_LEN) in PrefixCounter(order)
  {
    var q := uid / DIVISOR;
    var counter := PrefixCounter(order);
    PrefixIsQuotient(uid);
    CounterMembers(order, GetPrefix(uid, PREFIX_LEN));
    if q in cases {
      assert q in CaseValues(counter);
      var p :| p in counter && AllDigits(p) && ParseDecimal(p) as int == q;
      CounterMembers(order, p);
      var v :| v in order && Whitelist.Is16Digit(v) && GetPrefix(v, PREFIX_LEN) == p;
      PrefixIsQuotient(v);
      SamePrefix(uid, v);
    }
    if exists v :: v in order && Whitelist.Is16Digit(v) && v / DIVISOR == q {
      var v :| v in order && Whitelist.Is16Digit(v) && v / DIVISOR == q;
      SamePrefix(uid, v);
      assert GetPrefix(uid, PREFIX_LEN) in counter;
    }
    if GetPrefix(uid, PREFIX_LEN) in counter {
      assert q in CaseValues(counter);
      assert q in Elems(cases);
    }
  }

  /** `main` after collection: nothing for an empty uid set or one without
      16-digit uids, otherwise the switch generated from the counter. */
  method Analyze(order: seq<int>) returns (cases: Option<seq<int>>)
    ensures cases.Some? <==> Whitelist.Sixteen(order) != {}
    ensures cases.Some? ==> Ascending(cases.value) && Elems(cases.value) == CaseValues(PrefixCounter(order))
  {
    if order == [] {
      assert Whitelist.Sixteen(order) == {};
      return None;
    }
    var counter := PrefixCounter(order);
    if counter == multiset{} {
      assert Whitelist.Sixteen(order) == {} by {
        if u :| u in Whitelist.Sixteen(order) {
          CounterMembers(order, GetPrefix(u, PREFIX_LEN));
        }
      }
      return None;
    }
    assert Whitelist.Sixteen(order) != {} by {
      HasElement(counter);
      var p :| p in counter;
      CounterMembers(order, p);
      var u :| u in order && Whitelist.Is16Digit(u) && GetPrefix(u, PREFIX_LEN) == p;
      assert u in Whitelist.Sixteen(order);
    }
    CounterKeys(order);
    var labels := GenerateCases(counter);
    cases := Some(labels);
  }

  /** A non-empty multiset has an element. */
  lemma HasElement(m: multiset<seq<bv8>>)
    requires m != multiset{}
    ensures exists p :: p in m
  {
    if forall p :: p !in m {
      assert false;
    }
  }
}
