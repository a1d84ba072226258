/** The history mode of src/main.c's `main` (src/main.c:464-563): a crawl
    backwards, month by month, from "2026-01" to the month the video was
    published (or "2009-01"), that searches every date of each month's
    history index with a fresh search context, stops after more than six
    empty months in a row or at the first match in first-only mode, and
    falls back to the real-time list when nothing was found for a keyword.

    The month is kept as two numbers and written out with "%04d-%02d" where
    the source compares it; the network (the month index and the segments
    of each date) is a parameter: `index(m)` has one segment per date the
    month's index lists (`idx->count` of them), each as the elements
    `parse_dm_seg` decodes from it. A date stored as NULL, which the loop
    skips, is an empty segment, so only a missing index or one with no dates
    is the empty list (NothingDatedMonth). */
module Crawl {
  import opened Wrappers
  import opened Proto
  import opened History
  import opened DecimalString

  /** A year and a month, 1 to 12. */
  datatype Month = Month(year: int, month: int)

  /** The months "%04d-%02d" spells in seven characters. */
  predicate ValidMonth(m: Month)
  {
    0 <= m.year <= 9999 && 1 <= m.month <= 12
  }

  /** Months counted from January of year 0. */
  function Index(m: Month): int
  {
    m.year * 12 + m.month - 1
  }

  /** The month before m (src/main.c:540-549). */
  function Prev(m: Month): (p: Month)
    requires 1 <= m.month <= 12
    ensures 1 <= p.month <= 12 && Index(p) == Index(m) - 1
  {
    if m.month - 1 == 0 then Month(m.year - 1, 12) else Month(m.year, m.month - 1)
  }

  /** The crawl's first month, `current_month` (src/main.c:471). */
  const START: Month := Month(2026, 1)

  /** `end_month` without a publication date (src/main.c:472). */
  const FOUNDED: Month := Month(2009, 1)

  /** Empty months in a row the crawl tolerates (src/main.c:508). */
  const MAX_EMPTY_STREAK: nat := 6

  /** The character '-'. */
  const DASH: bv8 := 0x2d

  /** `snprintf(buf, 16, "%04d-%02d", year, month)`. */
  function Format(m: Month): (s: seq<bv8>)
    requires ValidMonth(m)
    ensures |s| == 7
  {
    PaddedRoundTrip(m.year, 4);
    PaddedRoundTrip(m.month, 2);
    Padded(m.year, 4) + [DASH] + Padded(m.month, 2)
  }

  /** `strcmp(a, b) < 0`: a is below b at the first byte where they differ,
      or a proper prefix of b. */
  function StrLess(a: seq<bv8>, b: seq<bv8>): bool
    decreases |a|
  {
    if a == [] then b != []
    else if b == [] then false
    else if a[0] != b[0] then a[0] < b[0]
    else StrLess(a[1..], b[1..])
  }

  /** Comparing two concatenations whose first parts have equal lengths
      compares the first parts, then, if they are equal, the second. */
  lemma {:induction false} StrLessConcat(a1: seq<bv8>, a2: seq<bv8>, b1: seq<bv8>, b2: seq<bv8>)
    requires |a1| == |b1|
    ensures StrLess(a1 + a2, b1 + b2) <==> StrLess(a1, b1) || (a1 == b1 && StrLess(a2, b2))
    decreases |a1|
  {
    if a1 == [] {
      assert a1 + a2 == a2 && b1 + b2 == b2;
    } else {
      assert (a1 + a2)[0] == a1[0] && (b1 + b2)[0] == b1[0];
      assert (a1 + a2)[1..] == a1[1..] + a2 && (b1 + b2)[1..] == b1[1..] + b2;
      StrLessConcat(a1[1..], a2, b1[1..], b2);
      if a1[0] == b1[0] {
        assert a1 == b1 <==> a1[1..] == b1[1..] by {
          assert a1 == [a1[0]] + a1[1..] && b1 == [b1[0]] + b1[1..];
        }
      }
    }
  }

  /** Zero-padded numbers of the same width compare as strings as they do
      as numbers. */
  lemma {:induction false} PaddedOrder(x: nat, y: nat, k: nat)
    requires x < Pow10(k) && y < Pow10(k)
    ensures StrLess(Padded(x, k), Padded(y, k)) <==> x < y
    ensures Padded(x, k) == Padded(y, k) <==> x == y
    decreases k
  {
    if k > 0 {
      DivModOrder(x, y, k);
      PaddedOrder(x / 10, y / 10, k - 1);
      PaddedRoundTrip(x / 10, k - 1);
      PaddedRoundTrip(y / 10, k - 1);
      SnocOrder(Padded(x / 10, k - 1), Padded(y / 10, k - 1), x % 10, y % 10);
      assert Padded(x, k) == Padded(x / 10, k - 1) + [DigitChar(x % 10)];
      assert Padded(y, k) == Padded(y / 10, k - 1) + [DigitChar(y % 10)];
    }
  }

  /** Appending one digit to strings of equal length orders them by the
      strings first, then by the digits. */
  lemma SnocOrder(px: seq<bv8>, py: seq<bv8>, a: nat, b: nat)
    requires |px| == |py| && a < 10 && b < 10
    ensures StrLess(px + [DigitChar(a)], py + [DigitChar(b)]) <==> StrLess(px, py) || (px == py && a < b)
    ensures px + [DigitChar(a)] == py + [DigitChar(b)] <==> px == py && a == b
  {
    var dx, dy := [DigitChar(a)], [DigitChar(b)];
    StrLessConcat(px, dx, py, dy);
    DigitCharOrder(a, b);
    assert StrLess(dx, dy) <==> a < b by {
      assert dx[1..] == [] && dy[1..] == [];
    }
    if px + dx == py + dy {
      assert px == (px + dx)[..|px|] && py == (py + dy)[..|py|];
      assert dx[0] == (px + dx)[|px|];
    }
  }

  /** Digit characters are ordered, and told apart, as their digits are. */
  lemma DigitCharOrder(a: nat, b: nat)
    requires a < 10 && b < 10
    ensures DigitChar(a) < DigitChar(b) <==> a < b
    ensures DigitChar(a) == DigitChar(b) <==> a == b
  {
    assert DigitChar(a) as int == 0x30 + a && DigitChar(b) as int == 0x30 + b;
  }

  /** Numbers below 10^k compare by their last-digit quotients first, then
      by their last digits; the quotients are below 10^(k-1). */
  lemma DivModOrder(x: nat, y: nat, k: nat)
    requires 0 < k && x < Pow10(k) && y < Pow10(k)
    ensures x / 10 < Pow10(k - 1) && y / 10 < Pow10(k - 1)
    ensures x < y <==> x / 10 < y / 10 || (x / 10 == y / 10 && x % 10 < y % 10)
    ensures x == y <==> x / 10 == y / 10 && x % 10 == y % 10
  {
    assert Pow10(k) == 10 * Pow10(k - 1);
    assert x == 10 * (x / 10) + x % 10 && y == 10 * (y / 10) + y % 10;
  }

  /** The source's string comparison of two months is their order in time. */
  lemma FormatOrder(a: Month, b: Month)
    requires ValidMonth(a) && ValidMonth(b)
    ensures StrLess(Format(a), Format(b)) <==> Index(a) < Index(b)
  {
    assert Pow10(2) == 100 && Pow10(4) == 10000;
    var ya, yb, ma, mb := Padded(a.year, 4), Padded(b.year, 4), Padded(a.month, 2), Padded(b.month, 2);
    PaddedOrder(a.year, b.year, 4);
    PaddedOrder(a.month, b.month, 2);
    PaddedRoundTrip(a.year, 4);
    PaddedRoundTrip(b.year, 4);
    assert StrLess(ya + [DASH], yb + [DASH]) <==> StrLess(ya, yb) by {
      StrLessConcat(ya, [DASH], yb, [DASH]);
    }
    assert ya + [DASH] == yb + [DASH] <==> ya == yb by {
      if ya + [DASH] == yb + [DASH] {
        assert ya == (ya + [DASH])[..4] && yb == (yb + [DASH])[..4];
      }
    }
    StrLessConcat(ya + [DASH], ma, yb + [DASH], mb);
    IndexOrder(a, b);
  }

  /** Months are ordered by year, then by month. */
  lemma IndexOrder(a: Month, b: Month)
    requires ValidMonth(a) && ValidMonth(b)
    ensures Index(a) < Index(b) <==> a.year < b.year || (a.year == b.year && a.month < b.month)
  {
  }

  // ---------------------------------------------------------------------
  // One month

  /** The elements of a month's segments, date after date. */
  function Concat(segs: seq<seq<DanmakuElem>>): seq<DanmakuElem>
    decreases |segs|
  {
    if segs == [] then [] else Concat(segs[..|segs| - 1]) + segs[|segs| - 1]
  }

  /** Whether the search of a month's dates, with a context of its own,
      found a match. */
  predicate MonthFound(keyword: Option<seq<byte>>, firstOnly: bool, segs: seq<seq<DanmakuElem>>)
  {
    Run(keyword, firstOnly, Fresh, Concat(segs)).found
  }

  /** A found context stays found. */
  lemma {:induction false} FoundStays(keyword: Option<seq<byte>>, firstOnly: bool, c: Ctx, es: seq<DanmakuElem>)
    requires c.found
    ensures Run(keyword, firstOnly, c, es).found
    decreases |es|
  {
    if es != [] {
      FoundStays(keyword, firstOnly, Step(keyword, firstOnly, c, es[0]).0, es[1..]);
    }
  }

  /** One month with an index (src/main.c:512-539): a zeroed context, then
      the segment of each date in turn; in first-only mode the month ends at
      the first date after which the context is found. The results are
      whether the context was found, and whether the crawl is to stop. */
  method SearchMonth(keyword: Option<seq<byte>>, firstOnly: bool, segs: seq<seq<DanmakuElem>>)
    returns (found: bool, stop: bool)
    ensures found == MonthFound(keyword, firstOnly, segs)
    ensures stop <==> firstOnly && found
  {
    var ctx := new SearchContext(keyword, firstOnly);
    found := false;
    var i := 0;
    while i < |segs|
      invariant 0 <= i <= |segs|
      invariant ctx.Valid() && fresh(ctx) && fresh(ctx.seenIds)
      invariant ctx.keyword == keyword && ctx.firstOnly == firstOnly
      invariant ctx.State() == Run(keyword, firstOnly, Fresh, Concat(segs[..i]))
      invariant found == ctx.found && !(firstOnly && found)
    {
      ghost var before := ctx.State();
      ctx.Feed(segs[i]);
      assert segs[..i + 1][..i] == segs[..i];
      RunAppend(keyword, firstOnly, Fresh, Concat(segs[..i]), segs[i]);
      if before.found {
        FoundStays(keyword, firstOnly, before, segs[i]);
      }
      if ctx.firstOnly && ctx.found {
        RestOfMonth(keyword, ctx.State(), segs, i + 1);
        return true, true;
      }
      if ctx.found {
        found := true;
      }
      i := i + 1;
    }
    assert segs[..i] == segs;
    stop := false;
  }

  /** Once found in first-only mode, the dates left change nothing. */
  lemma RestOfMonth(keyword: Option<seq<byte>>, c: Ctx, segs: seq<seq<DanmakuElem>>, i: nat)
    requires 0 < i <= |segs| && c.found
    requires c == Run(keyword, true, Fresh, Concat(segs[..i]))
    ensures Run(keyword, true, Fresh, Concat(segs)).found
  {
    ConcatSplit(segs, i);
    RunAppend(keyword, true, Fresh, Concat(segs[..i]), Concat(segs[i..]));
    RunFrozen(keyword, c, Concat(segs[i..]));
  }

  lemma {:induction false} ConcatSplit(segs: seq<seq<DanmakuElem>>, i: nat)
    requires i <= |segs|
    ensures Concat(segs) == Concat(segs[..i]) + Concat(segs[i..])
    decreases |segs|
  {
    if i < |segs| {
      var n := |segs| - 1;
      ConcatSplit(segs[..n], i);
      assert segs[..n][..i] == segs[..i];
      assert segs[i..][..|segs[i..]| - 1] == segs[..n][i..];
    } else {
      assert segs[i..] == [];
      assert segs[..i] == segs;
    }
  }

  // ---------------------------------------------------------------------
  // The crawl

  /** Why the crawl ended: it passed the end month, met more than
      MAX_EMPTY_STREAK empty months in a row, or found a match in
      first-only mode. */
  datatype Ending = ReachedEnd | EmptyMonths | FoundFirst

  /** The months visited, newest first; whether any month found a match
      (`history_found_any`); and why the crawl ended. */
  datatype Crawled = Crawled(visited: seq<Month>, foundAny: bool, ending: Ending)

  /** Which months' searches find a match. */
  function Hits(keyword: Option<seq<byte>>, firstOnly: bool, index: Month -> seq<seq<DanmakuElem>>): Month -> bool
  {
    (m: Month) => MonthFound(keyword, firstOnly, index(m))
  }

  /** Whether month m, searched, found a match: never for a month without
      an index, which is not searched. */
  predicate Found(index: Month -> seq<seq<DanmakuElem>>, hit: Month -> bool, m: Month)
  {
    index(m) != [] && hit(m)
  }

  /** Dates that give no element (a date the index stores as NULL and the
      loop skips, or a segment that decodes to nothing) add nothing. */
  lemma {:induction false} ConcatNothing(segs: seq<seq<DanmakuElem>>)
    requires forall i :: 0 <= i < |segs| ==> segs[i] == []
    ensures Concat(segs) == []
    decreases |segs|
  {
    if segs != [] {
      ConcatNothing(segs[..|segs| - 1]);
    }
  }

  /** A month whose index lists dates, none of which gives an element, is
      not an empty month (`idx->count` is not 0): whatever the streak, it
      resets it, finds nothing, and the crawl goes on to the month before. */
  lemma NothingDatedMonth(keyword: Option<seq<byte>>, firstOnly: bool, index: Month -> seq<seq<DanmakuElem>>,
                          cur: Month, end: Month, streak: nat, foundAny: bool)
    requires 1 <= cur.month <= 12 && 1 <= end.month <= 12 && Index(end) <= Index(cur)
    requires index(cur) != [] && forall i :: 0 <= i < |index(cur)| ==> index(cur)[i] == []
    ensures NextStreak(index, cur, streak) == 0
    ensures !Found(index, Hits(keyword, firstOnly, index), cur)
    ensures CrawlFrom(firstOnly, index, Hits(keyword, firstOnly, index), cur, end, streak, foundAny)
         == Visit(cur, CrawlFrom(firstOnly, index, Hits(keyword, firstOnly, index), Prev(cur), end, 0, foundAny))
  {
    ConcatNothing(index(cur));
    assert !MonthFound(keyword, firstOnly, index(cur));
  }

  /** Whether the crawl goes on past cur. */
  predicate GoesOn(firstOnly: bool, index: Month -> seq<seq<DanmakuElem>>, hit: Month -> bool,
                   cur: Month, end: Month, streak: nat)
  {
    Index(end) <= Index(cur)
    && !(index(cur) == [] && streak + 1 > MAX_EMPTY_STREAK)
    && !(firstOnly && Found(index, hit, cur))
  }

  /** The empty months in a row after cur. */
  function NextStreak(index: Month -> seq<seq<DanmakuElem>>, cur: Month, streak: nat): nat
  {
    if index(cur) == [] then streak + 1 else 0
  }

  /** The crawl from month cur on, after streak empty months in a row and
      with foundAny found so far, hit telling which months' searches find a
      match. It stops once cur is earlier than end, which is what the
      source's string comparison decides (FormatOrder). */
  function CrawlFrom(firstOnly: bool, index: Month -> seq<seq<DanmakuElem>>, hit: Month -> bool,
                     cur: Month, end: Month, streak: nat, foundAny: bool): (r: Crawled)
    requires 1 <= cur.month <= 12 && 1 <= end.month <= 12
    decreases Index(cur) - Index(end) + 1
  {
    if Index(cur) < Index(end) then Crawled([], foundAny, ReachedEnd)
    else if index(cur) == [] && streak + 1 > MAX_EMPTY_STREAK then Crawled([cur], foundAny, EmptyMonths)
    else if firstOnly && Found(index, hit, cur) then Crawled([cur], true, FoundFirst)
    else Visit(cur, CrawlFrom(firstOnly, index, hit, Prev(cur), end, NextStreak(index, cur, streak),
                              foundAny || Found(index, hit, cur)))
  }

  /** r, with m visited before it. */
  function Visit(m: Month, r: Crawled): Crawled
  {
    r.(visited := [m] + r.visited)
  }

  /** r, with the months ms visited before it. */
  function VisitAll(ms: seq<Month>, r: Crawled): Crawled
  {
    r.(visited := ms + r.visited)
  }

  /** The history crawl (src/main.c:489-550) to the month end, and whether
      the real-time fallback follows (src/main.c:552-563): it does when
      nothing was found and a keyword was given. */
  method HistoryCrawl(keyword: Option<seq<byte>>, firstOnly: bool, index: Month -> seq<seq<DanmakuElem>>, end: Month)
    returns (r: Crawled, fallback: bool)
    requires ValidMonth(end) && 1 <= end.year
    ensures r == CrawlFrom(firstOnly, index, Hits(keyword, firstOnly, index), START, end, 0, false)
    ensures fallback <==> !r.foundAny && keyword.Some?
  {
    ghost var hit := Hits(keyword, firstOnly, index);
    var current := START;
    var streak: nat := 0;
    var foundAny := false;
    var visited: seq<Month> := [];
    ghost var whole := CrawlFrom(firstOnly, index, hit, START, end, 0, false);
    VisitNone(whole);
    while !StrLess(Format(current), Format(end))
      invariant ValidMonth(current) && streak <= MAX_EMPTY_STREAK
      invariant whole == VisitAll(visited, CrawlFrom(firstOnly, index, hit, current, end, streak, foundAny))
      decreases Index(current) - Index(end) + 1
    {
      FormatOrder(current, end);
      var segs := index(current);
      var found := false;
      if segs == [] {
        if streak + 1 > MAX_EMPTY_STREAK {
          r := Crawled(visited + [current], foundAny, EmptyMonths);
          CrawlStops(firstOnly, index, hit, current, end, streak, foundAny, visited, whole);
          return r, !r.foundAny && keyword.Some?;
        }
      } else {
        var stop;
        found, stop := SearchMonth(keyword, firstOnly, segs);
        if stop {
          r := Crawled(visited + [current], true, FoundFirst);
          CrawlStops(firstOnly, index, hit, current, end, streak, foundAny, visited, whole);
          return r, !r.foundAny && keyword.Some?;
        }
        if found {
          foundAny := true;
        }
      }
      CrawlGoesOn(firstOnly, index, hit, current, end, streak, found || foundAny, visited, whole);
      streak := NextStreak(index, current, streak);
      visited := visited + [current];
      current := Prev(current);
    }
    FormatOrder(current, end);
    r := Crawled(visited, foundAny, ReachedEnd);
    fallback := !foundAny && keyword.Some?;
  }

  lemma VisitNone(r: Crawled)
    ensures VisitAll([], r) == r
  {
    assert [] + r.visited == r.visited;
  }

  /** A turn of the crawl's loop that goes on to the month before. */
  lemma CrawlGoesOn(firstOnly: bool, index: Month -> seq<seq<DanmakuElem>>, hit: Month -> bool,
                    cur: Month, end: Month, streak: nat, foundAny: bool, visited: seq<Month>, whole: Crawled)
    requires 1 <= cur.month <= 12 && 1 <= end.month <= 12
    requires GoesOn(firstOnly, index, hit, cur, end, streak)
    requires whole == VisitAll(visited, CrawlFrom(firstOnly, index, hit, cur, end, streak, foundAny))
    ensures whole == VisitAll(visited + [cur], CrawlFrom(firstOnly, index, hit, Prev(cur), end, NextStreak(index, cur, streak),
                                                          foundAny || Found(index, hit, cur)))
  {
    var r' := CrawlFrom(firstOnly, index, hit, Prev(cur), end, NextStreak(index, cur, streak), foundAny || Found(index, hit, cur));
    assert visited + ([cur] + r'.visited) == (visited + [cur]) + r'.visited;
  }

  /** A turn of the crawl's loop that ends it at cur. */
  lemma CrawlStops(firstOnly: bool, index: Month -> seq<seq<DanmakuElem>>, hit: Month -> bool,
                   cur: Month, end: Month, streak: nat, foundAny: bool, visited: seq<Month>, whole: Crawled)
    requires 1 <= cur.month <= 12 && 1 <= end.month <= 12 && Index(end) <= Index(cur)
    requires !GoesOn(firstOnly, index, hit, cur, end, streak)
    requires whole == VisitAll(visited, CrawlFrom(firstOnly, index, hit, cur, end, streak, foundAny))
    ensures index(cur) == [] ==> whole == Crawled(visited + [cur], foundAny, EmptyMonths)
    ensures index(cur) != [] ==> whole == Crawled(visited + [cur], true, FoundFirst)
  {
  }

  /** The month a publication date gives, or FOUNDED without one
      (src/main.c:475-487). */
  function EndMonth(published: Option<Month>): Month
  {
    if published.Some? then published.value else FOUNDED
  }

  // ---------------------------------------------------------------------
  // What the crawl visits

  /** The months visited run back one at a time from cur and never pass
      end; when the end month ends the crawl, every month from cur back to
      end was visited. */
  lemma {:induction false} CrawlMonths(firstOnly: bool, index: Month -> seq<seq<DanmakuElem>>, hit: Month -> bool,
                                       cur: Month, end: Month, streak: nat, foundAny: bool)
    requires 1 <= cur.month <= 12 && 1 <= end.month <= 12
    ensures var r := CrawlFrom(firstOnly, index, hit, cur, end, streak, foundAny);
      && (forall i :: 0 <= i < |r.visited| ==> Index(r.visited[i]) == Index(cur) - i && 1 <= r.visited[i].month <= 12)
      && (forall i :: 0 <= i < |r.visited| ==> Index(end) <= Index(r.visited[i]))
      && (r.ending == ReachedEnd ==>
            |r.visited| == if Index(cur) < Index(end) then 0 else Index(cur) - Index(end) + 1)
    decreases Index(cur) - Index(end) + 1
  {
    if GoesOn(firstOnly, index, hit, cur, end, streak) {
      var p := Prev(cur);
      var r := CrawlFrom(firstOnly, index, hit, cur, end, streak, foundAny);
      var r' := CrawlFrom(firstOnly, index, hit, p, end, NextStreak(index, cur, streak), foundAny || Found(index, hit, cur));
      CrawlMonths(firstOnly, index, hit, p, end, NextStreak(index, cur, streak), foundAny || Found(index, hit, cur));
      assert r == Visit(cur, r');
      forall i | 0 < i < |r.visited|
        ensures r.visited[i] == r'.visited[i - 1]
      {
      }
    }
  }

  /** A crawl that stops for empty months has just visited more than
      MAX_EMPTY_STREAK of them in a row: at least 7 - streak months, the
      streak months before cur making up the rest, and the last (up to 7)
      of those it visited have no index. */
  lemma {:induction false} CrawlEmptyStreak(firstOnly: bool, index: Month -> seq<seq<DanmakuElem>>, hit: Month -> bool,
                                            cur: Month, end: Month, streak: nat, foundAny: bool)
    requires 1 <= cur.month <= 12 && 1 <= end.month <= 12 && streak <= MAX_EMPTY_STREAK
    ensures var r := CrawlFrom(firstOnly, index, hit, cur, end, streak, foundAny);
      r.ending == EmptyMonths ==>
        && |r.visited| >= MAX_EMPTY_STREAK + 1 - streak
        && forall i :: 0 <= i < |r.visited| && |r.visited| - (MAX_EMPTY_STREAK + 1) <= i ==> index(r.visited[i]) == []
    decreases Index(cur) - Index(end) + 1
  {
    var r := CrawlFrom(firstOnly, index, hit, cur, end, streak, foundAny);
    if GoesOn(firstOnly, index, hit, cur, end, streak) {
      var s := NextStreak(index, cur, streak);
      var r' := CrawlFrom(firstOnly, index, hit, Prev(cur), end, s, foundAny || Found(index, hit, cur));
      CrawlEmptyStreak(firstOnly, index, hit, Prev(cur), end, s, foundAny || Found(index, hit, cur));
      assert r == Visit(cur, r');
      if r.ending == EmptyMonths {
        forall i | 0 <= i < |r.visited| && |r.visited| - (MAX_EMPTY_STREAK + 1) <= i
          ensures index(r.visited[i]) == []
        {
          if i > 0 {
            assert r.visited[i] == r'.visited[i - 1];
          } else {
            assert r.visited[0] == cur && index(cur) == [];
          }
        }
      }
    }
  }

  /** From the first month, a crawl that stops for empty months has just
      visited seven months in a row without an index. */
  lemma SevenEmptyMonths(firstOnly: bool, index: Month -> seq<seq<DanmakuElem>>, hit: Month -> bool, end: Month)
    requires 1 <= end.month <= 12
    ensures var v := CrawlFrom(firstOnly, index, hit, START, end, 0, false).visited;
      CrawlFrom(firstOnly, index, hit, START, end, 0, false).ending == EmptyMonths ==>
        |v| >= MAX_EMPTY_STREAK + 1 && forall i :: |v| - (MAX_EMPTY_STREAK + 1) <= i < |v| ==> index(v[i]) == []
  {
    CrawlEmptyStreak(firstOnly, index, hit, START, end, 0, false);
  }

  /** The crawl has found something exactly when it had before cur, or a
      month it visited found a match; it stops for a match only in
      first-only mode, at the month that found it. */
  lemma {:induction false} CrawlFound(firstOnly: bool, index: Month -> seq<seq<DanmakuElem>>, hit: Month -> bool,
                                      cur: Month, end: Month, streak: nat, foundAny: bool)
    requires 1 <= cur.month <= 12 && 1 <= end.month <= 12
    ensures var r := CrawlFrom(firstOnly, index, hit, cur, end, streak, foundAny);
      && (r.foundAny <==> foundAny || exists i :: 0 <= i < |r.visited| && Found(index, hit, r.visited[i]))
      && (r.ending == FoundFirst ==>
            firstOnly && r.visited != [] && Found(index, hit, r.visited[|r.visited| - 1]))
    decreases Index(cur) - Index(end) + 1
  {
    var r := CrawlFrom(firstOnly, index, hit, cur, end, streak, foundAny);
    if GoesOn(firstOnly, index, hit, cur, end, streak) {
      var f := foundAny || Found(index, hit, cur);
      var r' := CrawlFrom(firstOnly, index, hit, Prev(cur), end, NextStreak(index, cur, streak), f);
      CrawlFound(firstOnly, index, hit, Prev(cur), end, NextStreak(index, cur, streak), f);
      assert r == Visit(cur, r');
      VisitFound(index, hit, cur, r');
    } else if Index(end) <= Index(cur) {
      assert r.visited == [cur];
      if Found(index, hit, cur) {
        assert Found(index, hit, r.visited[0]);
      }
    }
  }

  /** A month visited before r's months found a match exactly when it did
      or one of r's did. */
  lemma VisitFound(index: Month -> seq<seq<DanmakuElem>>, hit: Month -> bool, m: Month, r: Crawled)
    ensures var v := Visit(m, r).visited;
      (exists i :: 0 <= i < |v| && Found(index, hit, v[i]))
      <==> Found(index, hit, m) || exists i :: 0 <= i < |r.visited| && Found(index, hit, r.visited[i])
    ensures Visit(m, r).visited != [] && (r.visited != [] ==> Visit(m, r).visited[|Visit(m, r).visited| - 1] == r.visited[|r.visited| - 1])
  {
    var v := Visit(m, r).visited;
    assert v[0] == m;
    if exists i :: 0 <= i < |r.visited| && Found(index, hit, r.visited[i]) {
      var i :| 0 <= i < |r.visited| && Found(index, hit, r.visited[i]);
      assert v[i + 1] == r.visited[i];
    }
    if exists i :: 0 <= i < |v| && Found(index, hit, v[i]) {
      var i :| 0 <= i < |v| && Found(index, hit, v[i]);
      if i > 0 {
        assert v[i] == r.visited[i - 1];
      }
    }
  }

  /** The real-time fallback runs exactly when a keyword was given and no
      month the crawl visited found a match. */
  lemma FallbackMeans(keyword: Option<seq<byte>>, firstOnly: bool, index: Month -> seq<seq<DanmakuElem>>, hit: Month -> bool, end: Month)
    requires ValidMonth(end)
    ensures var r := CrawlFrom(firstOnly, index, hit, START, end, 0, false);
      (!r.foundAny && keyword.Some?) <==>
        keyword.Some? && forall i :: 0 <= i < |r.visited| ==> !Found(index, hit, r.visited[i])
  {
    CrawlFound(firstOnly, index, hit, START, end, 0, false);
  }
}
