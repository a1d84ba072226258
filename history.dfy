/** The history search of src/main.c: the callback `parse_dm_seg` hands each
    decoded danmaku element to, with its search context (keyword, first-only
    mode, the found flag, counters and the simple de-duplication table), and
    the hash checks it makes before a matched element's hash goes to the
    cracker. The older callback of main.c, which keeps only the counters, is
    modelled beside it.

    The context is a `class` whose fields the callback updates in place; each
    method is proved against `Step`, a function of the old context and the
    element, and the properties of the search are lemmas about `Step` and its
    fold `Run`. What the callback prints is not modelled; the matches it
    reports, with the hash it hands to the cracker, are kept as `reports`. */
module History {
  import opened Wrappers
  import opened Proto
  import opened HexParse

  /** MAX_SEEN_IDS (src/main.c:64). */
  const MAX_SEEN_IDS: nat := 1000

  /** The length of a normalised hash. */
  const HASH_LEN: nat := 8

  /** The character '0'. */
  const ZERO: byte := 0x30

  // ---------------------------------------------------------------------
  // C strings

  /** The C string a buffer holds: its bytes before the first NUL, which is
      what `strlen`, `strstr` and `printf("%s")` see of it. */
  function CStr(s: seq<byte>): (r: seq<byte>)
    ensures |r| <= |s| && r == s[..|r|]
    ensures forall i :: 0 <= i < |r| ==> r[i] != 0
    ensures |r| < |s| ==> s[|r|] == 0
  {
    if s == [] || s[0] == 0 then [] else [s[0]] + CStr(s[1..])
  }

  /** A buffer without NUL is its own C string. */
  lemma {:induction false} CStrOfText(s: seq<byte>)
    requires forall i :: 0 <= i < |s| ==> s[i] != 0
    ensures CStr(s) == s
  {
    if s != [] {
      CStrOfText(s[1..]);
    }
  }

  /** pat occurs in s at i. */
  predicate OccursAt(s: seq<byte>, pat: seq<byte>, i: nat)
  {
    i + |pat| <= |s| && s[i..i + |pat|] == pat
  }

  /** `strstr(s, pat) != NULL` for C strings s and pat. */
  predicate Contains(s: seq<byte>, pat: seq<byte>)
  {
    exists i :: 0 <= i <= |s| && OccursAt(s, pat, i)
  }

  /** The keyword test (src/main.c:128-137, main.c:104-112): with no keyword
      every element matches; with one, the element needs content, and the
      keyword must occur in it. */
  predicate Matches(keyword: Option<seq<byte>>, e: DanmakuElem)
  {
    keyword.None? || (e.content.Some? && Contains(CStr(e.content.value), CStr(keyword.value)))
  }

  /** With a keyword, an element without content never matches, and any
      content matches the empty keyword and a keyword it starts with. */
  lemma MatchesCases(keyword: seq<byte>, e: DanmakuElem)
    ensures e.content.None? ==> !Matches(Some(keyword), e)
    ensures e.content.Some? && CStr(keyword) == [] ==> Matches(Some(keyword), e)
    ensures e.content.Some? && CStr(keyword) <= CStr(e.content.value) ==> Matches(Some(keyword), e)
  {
    if e.content.Some? && CStr(keyword) <= CStr(e.content.value) {
      assert OccursAt(CStr(e.content.value), CStr(keyword), 0);
    }
  }

  // ---------------------------------------------------------------------
  // The hash of a matched element

  /** The characters the hash check accepts: 0-9, a-f and A-F. */
  predicate IsHexByte(c: byte)
  {
    (0x30 <= c <= 0x39) || (0x61 <= c <= 0x66) || (0x41 <= c <= 0x46)
  }

  /** The bytes of a hash read as characters. */
  function Chars(h: seq<byte>): (t: seq<char>)
    ensures |t| == |h|
  {
    seq(|h|, i requires 0 <= i < |h| => (h[i] as int) as char)
  }

  /** The byte test is the hex-digit test of the target parser. */
  lemma HexBytes(h: seq<byte>)
    ensures forall i :: 0 <= i < |h| ==> (IsHexByte(h[i]) <==> IsHexDigit(Chars(h)[i]))
  {
  }

  /** `valid_hex` (src/main.c:152-164): exactly eight hex digits. */
  predicate WellFormedHash(h: seq<byte>)
  {
    |h| == HASH_LEN && forall i :: 0 <= i < |h| ==> IsHexByte(h[i])
  }

  /** The validation loop: false when the length is not 8 or at the first
      byte that is not a hex digit. */
  method CheckHash(h: seq<byte>) returns (valid: bool)
    ensures valid <==> WellFormedHash(h)
  {
    valid := true;
    if |h| != HASH_LEN {
      valid := false;
    }
    var i := 0;
    while i < |h|
      invariant 0 <= i <= |h|
      invariant valid <==> |h| == HASH_LEN && forall k :: 0 <= k < i ==> IsHexByte(h[k])
    {
      if !IsHexByte(h[i]) {
        valid := false;
        break;
      }
      i := i + 1;
    }
  }

  /** k copies of '0'. */
  function Zeros(k: nat): (z: seq<byte>)
    ensures |z| == k && forall i :: 0 <= i < k ==> z[i] == ZERO
  {
    seq(k, _ => ZERO)
  }

  /** The hash the cracker is given (src/main.c:172-184): a shorter hash is
      padded on the left with '0' to eight characters, a longer one is cut to
      its first eight. */
  function Normalised(h: seq<byte>): seq<byte>
  {
    if |h| < HASH_LEN then Zeros(HASH_LEN - |h|) + h else h[..HASH_LEN]
  }

  /** `normalized_hash[9]`, zero-filled, then the padding loop and the
      `memcpy` of the hash. */
  method Normalise(h: seq<byte>) returns (n: seq<byte>)
    ensures n == Normalised(h)
  {
    var buf := new byte[HASH_LEN + 1](_ => 0);
    var len := |h|;
    if len < HASH_LEN {
      var zeros := HASH_LEN - len;
      var i := 0;
      while i < zeros
        invariant 0 <= i <= zeros
        invariant forall k :: 0 <= k < i ==> buf[k] == ZERO
      {
        buf[i] := ZERO;
        i := i + 1;
      }
      forall k | 0 <= k < len {
        buf[zeros + k] := h[k];
      }
      assert buf[..HASH_LEN] == Zeros(zeros) + h;
    } else {
      forall k | 0 <= k < HASH_LEN {
        buf[k] := h[k];
      }
    }
    n := buf[..HASH_LEN];
  }

  /** The normalised hash has eight characters, keeps a hash of eight
      unchanged, and normalising twice changes nothing. */
  lemma NormalisedShape(h: seq<byte>)
    ensures |Normalised(h)| == HASH_LEN
    ensures |h| == HASH_LEN ==> Normalised(h) == h
    ensures Normalised(Normalised(h)) == Normalised(h)
  {
  }

  /** Padding a hash of at most eight hex digits makes a well-formed hash. */
  lemma NormalisedWellFormed(h: seq<byte>)
    requires |h| <= HASH_LEN && forall i :: 0 <= i < |h| ==> IsHexByte(h[i])
    ensures WellFormedHash(Normalised(h))
  {
    var n := Normalised(h);
    forall i | 0 <= i < |n|
      ensures IsHexByte(n[i])
    {
      if i >= HASH_LEN - |h| {
        assert n[i] == h[i - (HASH_LEN - |h|)];
      }
    }
  }

  /** Leading zeros do not change the value of hex digits. */
  lemma {:induction false} ZerosValue(k: nat, t: seq<char>)
    requires forall i :: 0 <= i < |t| ==> IsHexDigit(t[i])
    ensures forall i :: 0 <= i < k + |t| ==> IsHexDigit((Chars(Zeros(k)) + t)[i])
    ensures HexNat(Chars(Zeros(k)) + t) == HexNat(t)
    decreases |t| + k
  {
    var z := Chars(Zeros(k));
    assert forall i :: 0 <= i < k ==> z[i] == '0';
    if t != [] {
      var u := t[..|t| - 1];
      ZerosValue(k, u);
      assert (z + t)[..|z + t| - 1] == z + u;
    } else if k > 0 {
      ZerosValue(k - 1, t);
      assert z[..k - 1] == Chars(Zeros(k - 1));
      assert (z + t)[..k - 1] == Chars(Zeros(k - 1)) + t;
    }
  }

  /** Eight hex digits are below 2^32. */
  lemma {:induction false} HexNatBound(t: seq<char>)
    requires forall i :: 0 <= i < |t| ==> IsHexDigit(t[i])
    ensures HexNat(t) < Pow16(|t|)
    decreases |t|
  {
    if t != [] {
      HexNatBound(t[..|t| - 1]);
    }
  }

  /** The value `strtoul` reads from a normalised hash is the value of the
      hash as received: padding restores the leading zeros the encoder
      dropped, without changing the target the cracker looks for. */
  lemma NormalisedTarget(h: seq<byte>)
    requires 0 < |h| <= HASH_LEN && forall i :: 0 <= i < |h| ==> IsHexByte(h[i])
    ensures forall i :: 0 <= i < |h| ==> IsHexDigit(Chars(h)[i])
    ensures StrToUL(Chars(Normalised(h))) == HexNat(Chars(h))
  {
    HexBytes(h);
    var k := HASH_LEN - |h|;
    var t := Chars(Normalised(h));
    assert t == Chars(Zeros(k)) + Chars(h);
    ZerosValue(k, Chars(h));
    HexNatBound(t);
    Pow16Eight();
    HexRunAll(t);
    assert t[1] != 'x' && t[1] != 'X' by {
      assert IsHexDigit(t[1]);
    }
    assert HexMagnitude(t) == HexNat(t) by {
      assert t[..HexRun(t)] == t;
    }
    StrToULUnsigned(t);
  }

  // ---------------------------------------------------------------------
  // The search context

  /** What the callback makes of a matched element's hash: the C string
      received, whether it passed the check, and what the cracker is given. */
  datatype Hashed = Hashed(raw: seq<byte>, wellFormed: bool, normalised: seq<byte>)

  /** A matched element as the callback reports it. */
  datatype Report = Report(id: int, content: Option<seq<byte>>, hash: Option<Hashed>)

  function HashReport(midHash: seq<byte>): Hashed
  {
    var h := CStr(midHash);
    Hashed(h, WellFormedHash(h), Normalised(h))
  }

  function ReportOf(e: DanmakuElem): Report
  {
    Report(e.id, e.content, if e.midHash.Some? then Some(HashReport(e.midHash.value)) else None)
  }

  /** The report of a matched element (src/main.c:138-184): the hash, if
      any, is checked and normalised before it goes to the cracker. */
  method MakeReport(e: DanmakuElem) returns (r: Report)
    ensures r == ReportOf(e)
  {
    if e.midHash.None? {
      return Report(e.id, e.content, None);
    }
    var h := CStr(e.midHash.value);
    var valid := CheckHash(h);
    var n := Normalise(h);
    r := Report(e.id, e.content, Some(Hashed(h, valid, n)));
  }

  /** The state of a `SearchContext` (src/main.c:66-74) the callback reads
      and writes: the found flag, the two counters, the recorded ids
      `seen_ids[0 .. seen_count)` and the reports. */
  datatype Ctx = Ctx(found: bool, processed: int, matched: int, seen: seq<int>, reports: seq<Report>)

  /** `SearchContext ctx = {0}`, as each month of the crawl starts. */
  const Fresh: Ctx := Ctx(false, 0, 0, [], [])

  /** `history_callback` (src/main.c:107-311) on one element: the new
      context, and true for the non-zero return that stops the parse. */
  function Step(keyword: Option<seq<byte>>, firstOnly: bool, c: Ctx, e: DanmakuElem): (r: (Ctx, bool))
  {
    if firstOnly && c.found then (c, true)
    else
      var c1 := c.(processed := c.processed + 1);
      if e.id in c.seen then (c1, false)
      else
        var c2 := if |c.seen| < MAX_SEEN_IDS then c1.(seen := c.seen + [e.id]) else c1;
        if Matches(keyword, e) then
          (c2.(matched := c2.matched + 1, found := true, reports := c2.reports + [ReportOf(e)]), firstOnly)
        else (c2, false)
  }

  /** The context after the elements es, one after the other. */
  function Run(keyword: Option<seq<byte>>, firstOnly: bool, c: Ctx, es: seq<DanmakuElem>): Ctx
    decreases |es|
  {
    if es == [] then c else Run(keyword, firstOnly, Step(keyword, firstOnly, c, es[0]).0, es[1..])
  }

  /** No id is recorded twice. */
  predicate Distinct(s: seq<int>)
  {
    forall i, j :: 0 <= i < j < |s| ==> s[i] != s[j]
  }

  /** The table of seen ids never holds more than MAX_SEEN_IDS ids, and
      never the same id twice. */
  lemma StepKeepsTable(keyword: Option<seq<byte>>, firstOnly: bool, c: Ctx, e: DanmakuElem)
    requires |c.seen| <= MAX_SEEN_IDS && Distinct(c.seen)
    ensures |Step(keyword, firstOnly, c, e).0.seen| <= MAX_SEEN_IDS
    ensures Distinct(Step(keyword, firstOnly, c, e).0.seen)
  {
  }

  /** An id is recorded exactly when it is new and the table has room; the
      table only grows at its end. */
  lemma StepRecords(keyword: Option<seq<byte>>, firstOnly: bool, c: Ctx, e: DanmakuElem)
    requires !(firstOnly && c.found)
    ensures var s := Step(keyword, firstOnly, c, e).0.seen;
      s == if e.id !in c.seen && |c.seen| < MAX_SEEN_IDS then c.seen + [e.id] else c.seen
  {
  }

  /** Once found in first-only mode, the callback asks to stop and changes
      nothing. */
  lemma FoundFreezes(keyword: Option<seq<byte>>, c: Ctx, e: DanmakuElem)
    requires c.found
    ensures Step(keyword, true, c, e) == (c, true)
  {
  }

  /** A repeated id counts as processed and nothing else. */
  lemma RepeatCountsOnly(keyword: Option<seq<byte>>, firstOnly: bool, c: Ctx, e: DanmakuElem)
    requires !(firstOnly && c.found) && e.id in c.seen
    ensures Step(keyword, firstOnly, c, e) == (c.(processed := c.processed + 1), false)
  {
  }

  /** An element is counted, marked found and reported exactly when its id is
      new and it matches; the callback asks to stop exactly when that
      happens in first-only mode, or the context was already found in it. */
  lemma StepMatches(keyword: Option<seq<byte>>, firstOnly: bool, c: Ctx, e: DanmakuElem)
    requires !(firstOnly && c.found)
    ensures var (c', stop) := Step(keyword, firstOnly, c, e);
      var hit := e.id !in c.seen && Matches(keyword, e);
      && c'.processed == c.processed + 1
      && (c'.matched == c.matched + 1 <==> hit)
      && (!hit ==> c'.matched == c.matched && c'.found == c.found && c'.reports == c.reports)
      && (hit ==> c'.found && c'.reports == c.reports + [ReportOf(e)])
      && (stop <==> firstOnly && hit)
  {
  }

  /** In the default mode the callback never asks to stop. */
  lemma AllModeNeverStops(keyword: Option<seq<byte>>, c: Ctx, e: DanmakuElem)
    ensures !Step(keyword, false, c, e).1
  {
  }

  /** A stop leaves the context found. */
  lemma StopMeansFound(keyword: Option<seq<byte>>, firstOnly: bool, c: Ctx, e: DanmakuElem)
    requires Step(keyword, firstOnly, c, e).1
    ensures firstOnly && Step(keyword, firstOnly, c, e).0.found
  {
  }

  /** Elements after a first-only context is found change nothing. */
  lemma {:induction false} RunFrozen(keyword: Option<seq<byte>>, c: Ctx, es: seq<DanmakuElem>)
    requires c.found
    ensures Run(keyword, true, c, es) == c
    decreases |es|
  {
    if es != [] {
      FoundFreezes(keyword, c, es[0]);
      RunFrozen(keyword, c, es[1..]);
    }
  }

  lemma {:induction false} RunAppend(keyword: Option<seq<byte>>, firstOnly: bool, c: Ctx, xs: seq<DanmakuElem>, ys: seq<DanmakuElem>)
    ensures Run(keyword, firstOnly, c, xs + ys) == Run(keyword, firstOnly, Run(keyword, firstOnly, c, xs), ys)
    decreases |xs|
  {
    if xs == [] {
      assert xs + ys == ys;
    } else {
      assert (xs + ys)[0] == xs[0];
      assert (xs + ys)[1..] == xs[1..] + ys;
      RunAppend(keyword, firstOnly, Step(keyword, firstOnly, c, xs[0]).0, xs[1..], ys);
    }
  }

  /** Over a run, the table of seen ids stays bounded and without repeats. */
  lemma {:induction false} RunKeepsTable(keyword: Option<seq<byte>>, firstOnly: bool, c: Ctx, es: seq<DanmakuElem>)
    requires |c.seen| <= MAX_SEEN_IDS && Distinct(c.seen)
    ensures |Run(keyword, firstOnly, c, es).seen| <= MAX_SEEN_IDS
    ensures Distinct(Run(keyword, firstOnly, c, es).seen)
    decreases |es|
  {
    if es != [] {
      StepKeepsTable(keyword, firstOnly, c, es[0]);
      RunKeepsTable(keyword, firstOnly, Step(keyword, firstOnly, c, es[0]).0, es[1..]);
    }
  }

  /** One step adds at most the report of the element, and only when it
      matches; it leaves the context found exactly when it was, or reported
      the element. */
  lemma StepReports(keyword: Option<seq<byte>>, firstOnly: bool, c: Ctx, e: DanmakuElem)
    requires c.found || c.reports == []
    ensures var c' := Step(keyword, firstOnly, c, e).0;
      && |c.reports| <= |c'.reports| && c'.reports == c.reports + c'.reports[|c.reports|..]
      && (c'.reports[|c.reports|..] == [] || (Matches(keyword, e) && c'.reports[|c.reports|..] == [ReportOf(e)]))
      && (c'.found <==> c.found || |c'.reports| > |c.reports|)
  {
  }

  /** The reports of the elements of es that match, in order. */
  function Matched(keyword: Option<seq<byte>>, es: seq<DanmakuElem>): (rs: seq<Report>)
    ensures |rs| <= |es|
    decreases |es|
  {
    if es == [] then []
    else (if Matches(keyword, es[0]) then [ReportOf(es[0])] else []) + Matched(keyword, es[1..])
  }

  /** Every report in rs is that of a matching element of es. */
  predicate ReportsOf(keyword: Option<seq<byte>>, es: seq<DanmakuElem>, rs: seq<Report>)
  {
    forall k :: 0 <= k < |rs| ==> rs[k] in Matched(keyword, es)
  }

  /** The reports of one element, followed by those of the elements after
      it, are reports of the whole. */
  lemma ReportsOfCons(keyword: Option<seq<byte>>, es: seq<DanmakuElem>, head: seq<Report>, rest: seq<Report>)
    requires es != []
    requires head == [] || (Matches(keyword, es[0]) && head == [ReportOf(es[0])])
    requires ReportsOf(keyword, es[1..], rest)
    ensures ReportsOf(keyword, es, head + rest)
  {
    var rs := head + rest;
    var m := Matched(keyword, es);
    var front := if Matches(keyword, es[0]) then [ReportOf(es[0])] else [];
    assert m == front + Matched(keyword, es[1..]);
    forall k | 0 <= k < |rs|
      ensures rs[k] in m
    {
      if k < |head| {
        assert rs[k] == front[0];
      } else {
        assert rs[k] == rest[k - |head|];
      }
    }
  }

  /** Over a run the found flag and the reports only grow: the context ends
      found exactly when it started so, or something was reported, and every
      report added is that of a matching element of the run. */
  lemma {:induction false} RunReports(keyword: Option<seq<byte>>, firstOnly: bool, c: Ctx, es: seq<DanmakuElem>)
    requires c.found || c.reports == []
    ensures var r := Run(keyword, firstOnly, c, es);
      && |c.reports| <= |r.reports| && r.reports[..|c.reports|] == c.reports
      && (r.found <==> c.found || |r.reports| > |c.reports|)
      && ReportsOf(keyword, es, r.reports[|c.reports|..])
    decreases |es|
  {
    var r := Run(keyword, firstOnly, c, es);
    if es == [] {
      assert r.reports[|c.reports|..] == [];
    } else {
      var c' := Step(keyword, firstOnly, c, es[0]).0;
      StepReports(keyword, firstOnly, c, es[0]);
      RunReports(keyword, firstOnly, c', es[1..]);
      assert r == Run(keyword, firstOnly, c', es[1..]);
      var head := c'.reports[|c.reports|..];
      assert c'.reports == c.reports + head;
      assert r.reports[|c.reports|..] == head + r.reports[|c'.reports|..];
      ReportsOfCons(keyword, es, head, r.reports[|c'.reports|..]);
    }
  }

  /** The callback as `parse_dm_seg` sees it, for a context that starts as
      c: its answer for an element is that of `Step` on the context the
      elements before it have left. */
  function Decide(keyword: Option<seq<byte>>, firstOnly: bool, c: Ctx): Callback
  {
    (seen: seq<DanmakuElem>, e: DanmakuElem) => Step(keyword, firstOnly, Run(keyword, firstOnly, c, seen), e).1
  }

  /** In the default mode a segment is parsed to its end: every element it
      encodes is handed to the callback. */
  lemma AllModeSeesAll(keyword: Option<seq<byte>>, c: Ctx, es: seq<DanmakuElem>)
    requires forall k :: 0 <= k < |es| ==> Encodable(es[k])
    ensures Seg(EncodeSeg(es), Some(Decide(keyword, false, c))) == SegOutcome(Ok, es)
  {
    var cb := Decide(keyword, false, c);
    forall seen, e
      ensures !cb(seen, e)
    {
      AllModeNeverStops(keyword, Run(keyword, false, c, seen), e);
    }
    SegRoundTrip(es, Some(cb));
  }

  /** The elements a stop keeps from the callback change nothing: the
      context after the elements handed over is the context after all. */
  lemma {:induction false} StopIsHarmless(keyword: Option<seq<byte>>, firstOnly: bool, c: Ctx, seen: seq<DanmakuElem>, es: seq<DanmakuElem>)
    ensures Run(keyword, firstOnly, c, seen + es[..Handed(Some(Decide(keyword, firstOnly, c)), seen, es)])
         == Run(keyword, firstOnly, c, seen + es)
    decreases |es|
  {
    var cb := Some(Decide(keyword, firstOnly, c));
    if es == [] {
      assert es[..0] == es;
    } else if Stops(cb, seen, es[0]) {
      assert es[..Handed(cb, seen, es)] == [es[0]];
      StoppedRun(keyword, firstOnly, c, seen, es);
    } else {
      var n := Handed(cb, seen + [es[0]], es[1..]);
      assert Handed(cb, seen, es) == 1 + n;
      StopIsHarmless(keyword, firstOnly, c, seen + [es[0]], es[1..]);
      ShiftHead(seen, es, n);
    }
  }

  /** Moving the first of es over to seen. */
  lemma ShiftHead<T>(seen: seq<T>, es: seq<T>, n: nat)
    requires es != [] && n < |es|
    ensures seen + es[..1 + n] == (seen + [es[0]]) + es[1..][..n]
    ensures seen + es == (seen + [es[0]]) + es[1..]
  {
    assert es[..1 + n] == [es[0]] + es[1..][..n];
    assert es == [es[0]] + es[1..];
  }

  /** When the callback stops at the first of es, the rest change nothing. */
  lemma StoppedRun(keyword: Option<seq<byte>>, firstOnly: bool, c: Ctx, seen: seq<DanmakuElem>, es: seq<DanmakuElem>)
    requires es != [] && Decide(keyword, firstOnly, c)(seen, es[0])
    ensures Run(keyword, firstOnly, c, seen + [es[0]]) == Run(keyword, firstOnly, c, seen + es)
  {
    var before := Run(keyword, firstOnly, c, seen);
    var after := Step(keyword, firstOnly, before, es[0]).0;
    StopMeansFound(keyword, firstOnly, before, es[0]);
    RunAppend(keyword, firstOnly, c, seen, [es[0]]);
    assert Run(keyword, firstOnly, before, [es[0]]) == after;
    RunAppend(keyword, firstOnly, c, seen + [es[0]], es[1..]);
    assert seen + es == (seen + [es[0]]) + es[1..];
    RunFrozen(keyword, after, es[1..]);
  }

  /** The search context of src/main.c, updated in place by the callback. */
  class SearchContext {
    const keyword: Option<seq<byte>>
    const firstOnly: bool
    var found: bool
    var totalProcessed: int
    var totalMatched: int
    /** `seen_ids`, of which the first `seenCount` are in use. */
    const seenIds: array<int>
    var seenCount: nat
    var reports: seq<Report>

    ghost predicate Valid()
      reads this
    {
      seenIds.Length == MAX_SEEN_IDS && seenCount <= MAX_SEEN_IDS
    }

    function State(): Ctx
      reads this, seenIds
      requires Valid()
    {
      Ctx(found, totalProcessed, totalMatched, seenIds[..seenCount], reports)
    }

    /** A zeroed context with the keyword and mode set. */
    constructor (keyword: Option<seq<byte>>, firstOnly: bool)
      ensures Valid() && fresh(seenIds)
      ensures this.keyword == keyword && this.firstOnly == firstOnly
      ensures State() == Fresh
    {
      this.keyword := keyword;
      this.firstOnly := firstOnly;
      found := false;
      totalProcessed := 0;
      totalMatched := 0;
      seenIds := new int[MAX_SEEN_IDS];
      seenCount := 0;
      reports := [];
    }

    /** The de-duplication loop: whether id is among the recorded ids. */
    method AlreadySeen(id: int) returns (seen: bool)
      requires Valid()
      ensures seen <==> id in State().seen
    {
      var i := 0;
      while i < seenCount
        invariant 0 <= i <= seenCount
        invariant id !in seenIds[..i]
      {
        if seenIds[i] == id {
          assert seenIds[..seenCount][i] == id;
          return true;
        }
        assert seenIds[..i + 1] == seenIds[..i] + [seenIds[i]];
        i := i + 1;
      }
      assert seenIds[..seenCount] == seenIds[..i];
      return false;
    }

    /** `history_callback` (src/main.c:107-311). */
    method Callback(e: DanmakuElem) returns (stop: bool)
      requires Valid()
      modifies this, seenIds
      ensures Valid()
      ensures (State(), stop) == Step(keyword, firstOnly, old(State()), e)
    {
      if firstOnly && found {
        return true;
      }
      totalProcessed := totalProcessed + 1;
      var seen := AlreadySeen(e.id);
      if seen {
        return false;
      }
      if seenCount < MAX_SEEN_IDS {
        seenIds[seenCount] := e.id;
        seenCount := seenCount + 1;
        assert seenIds[..seenCount] == old(seenIds[..seenCount]) + [e.id];
      }
      if Matches(keyword, e) {
        totalMatched := totalMatched + 1;
        found := true;
        var r := MakeReport(e);
        reports := reports + [r];
        if firstOnly {
          return true;
        }
      }
      return false;
    }

    /** The element loop of `parse_dm_seg` driving this callback over the
        elements of one segment: it ends at the first stop, and the
        context it leaves is the one all the elements would. */
    method Feed(es: seq<DanmakuElem>)
      requires Valid()
      modifies this, seenIds
      ensures Valid()
      ensures State() == Run(keyword, firstOnly, old(State()), es)
    {
      ghost var c0 := State();
      var i := 0;
      while i < |es|
        invariant Valid() && 0 <= i <= |es|
        invariant State() == Run(keyword, firstOnly, c0, es[..i])
      {
        ghost var before := State();
        var stop := Callback(es[i]);
        RunAppend(keyword, firstOnly, c0, es[..i], [es[i]]);
        assert es[..i + 1] == es[..i] + [es[i]];
        if stop {
          StopMeansFound(keyword, firstOnly, before, es[i]);
          RunFrozen(keyword, State(), es[i + 1..]);
          RunAppend(keyword, firstOnly, c0, es[..i + 1], es[i + 1..]);
          assert es[..i + 1] + es[i + 1..] == es;
          return;
        }
        i := i + 1;
      }
      assert es[..i] == es;
    }
  }

  // ---------------------------------------------------------------------
  // The callback of main.c

  /** The counters of main.c's `SearchContext` (main.c:61-67) and the
      reports of its callback. */
  datatype LegacyCtx = LegacyCtx(processed: int, matched: int, reports: seq<Report>)

  /** `history_callback` of main.c (main.c:100-177): every element is
      processed, and a match is reported; it never asks to stop. */
  function LegacyStep(keyword: Option<seq<byte>>, c: LegacyCtx, e: DanmakuElem): LegacyCtx
  {
    var c1 := c.(processed := c.processed + 1);
    if Matches(keyword, e) then c1.(matched := c1.matched + 1, reports := c1.reports + [ReportOf(e)]) else c1
  }

  /** The newer callback in the default mode agrees with the older one on an
      element it has not seen; it differs only in skipping repeated ids and
      in first-only mode. */
  lemma LegacyAgrees(keyword: Option<seq<byte>>, c: Ctx, e: DanmakuElem)
    requires e.id !in c.seen
    ensures var c' := Step(keyword, false, c, e).0;
      var l := LegacyStep(keyword, LegacyCtx(c.processed, c.matched, c.reports), e);
      l == LegacyCtx(c'.processed, c'.matched, c'.reports)
  {
  }

  /** main.c's search context. */
  class LegacySearchContext {
    const keyword: Option<seq<byte>>
    var totalProcessed: int
    var totalMatched: int
    var reports: seq<Report>

    function State(): LegacyCtx
      reads this
    {
      LegacyCtx(totalProcessed, totalMatched, reports)
    }

    constructor (keyword: Option<seq<byte>>)
      ensures this.keyword == keyword && State() == LegacyCtx(0, 0, [])
    {
      this.keyword := keyword;
      totalProcessed := 0;
      totalMatched := 0;
      reports := [];
    }

    /** `history_callback` (main.c:100-177). */
    method Callback(e: DanmakuElem) returns (stop: bool)
      modifies this
      ensures !stop
      ensures State() == LegacyStep(keyword, old(State()), e)
    {
      totalProcessed := totalProcessed + 1;
      if Matches(keyword, e) {
        totalMatched := totalMatched + 1;
        var r := MakeReport(e);
        reports := reports + [r];
      }
      stop := false;
    }
  }
}
