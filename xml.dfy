/** The real-time danmaku list is XML in which every danmaku is an element
    `<d p="f0,f1,...">text</d>`; the seventh comma-separated field of the
    `p` attribute is the CRC-32 hash of the sender's uid. Two walks over
    that text exist: `parse_and_crack` in bilitrace_local.c and
    `parse_xml_legacy`, the same in src/main.c and main.c. Each hands the
    hash of every wanted danmaku to `crack_hash`; here the walk returns
    those (text, hash) pairs instead. `xml` is the text before the
    buffer's terminating NUL, where every `strstr` and `strchr` stops. */
module Xml {
  import opened Wrappers
  import opened CText

  /** Where a danmaku element starts, up to its `p` attribute's value. */
  const OPEN: seq<char> := "<d p=\""
  /** Where a danmaku element ends. */
  const CLOSE: seq<char> := "</d>"
  /** `hash_buf[16]`: a hash is copied only when it is shorter than this. */
  const HASH_LIMIT: nat := 15

  /** The walk of bilitrace_local.c, or the one of the two main.c files. */
  datatype Variant = Local | Legacy

  /** The hash `parse_and_crack` extracts from the attribute text: the
      seventh field, kept only when a seventh comma closes it inside the
      attribute and it is shorter than 15 characters. */
  function LocalHash(attr: seq<char>): seq<char>
  {
    var fs := Fields(attr);
    if |fs| >= 8 && |fs[6]| < HASH_LIMIT then fs[6] else []
  }

  /** The hash `parse_xml_legacy` extracts: the seventh field, ended by a
      seventh comma, or else by the first '"', or else by the end of the
      attribute; kept only when shorter than 15 characters. */
  function LegacyHash(attr: seq<char>): seq<char>
  {
    var fs := Fields(attr);
    if |fs| < 7 then []
    else
      var f := if |fs| >= 8 then fs[6] else UpTo(fs[6], '"');
      if |f| < HASH_LIMIT then f else []
  }

  function HashOf(v: Variant, attr: seq<char>): seq<char>
  {
    if v == Local then LocalHash(attr) else LegacyHash(attr)
  }

  /** Both hashes are short, hold no comma, and are empty when the
      attribute has fewer than seven fields. */
  lemma HashShape(v: Variant, attr: seq<char>)
    ensures |HashOf(v, attr)| < HASH_LIMIT
    ensures forall i :: 0 <= i < |HashOf(v, attr)| ==> HashOf(v, attr)[i] != ','
    ensures Count(attr, ',') < 6 ==> HashOf(v, attr) == []
    ensures v == Local && Count(attr, ',') < 7 ==> HashOf(v, attr) == []
  {
    FieldsCount(attr);
    if |Fields(attr)| >= 7 {
      FieldsTail(attr, 6);
    }
  }

  /** The fields from the k-th on are those of a suffix of the text, so
      each holds no comma. */
  lemma {:induction false} FieldsTail(s: seq<char>, k: nat)
    requires k < |Fields(s)|
    ensures forall i :: 0 <= i < |Fields(s)[k]| ==> Fields(s)[k][i] != ','
    decreases k
  {
    FieldsCount(s);
    match Find(s, ',', 0)
    case None =>
    case Some(i) =>
      if k > 0 {
        FieldsTail(s[i + 1..], k - 1);
      }
  }

  /** `strchr(s + from, c)`, seen from inside s[from..to]: the first c in
      the window, if it lies before to. */
  lemma FindWithin(s: seq<char>, c: char, from: nat, to: nat)
    requires from <= to <= |s|
    ensures var e := Find(s, c, from);
            Find(s[from..to], c, 0) == if e.Some? && e.value < to then Some(e.value - from) else None
  {
    var w := s[from..to];
    var e := Find(s, c, from);
    match Find(w, c, 0)
    case None =>
    case Some(k) =>
      assert s[from + k] == c;
  }

  /** The comma at p is the sixth of the attribute s[start..pEnd]: the
      seventh field onwards are the fields of the text after it. */
  lemma SixthComma(xml: seq<char>, start: nat, pEnd: nat, p: nat)
    requires start <= p < pEnd <= |xml| && xml[p] == ',' && Count(xml[start..p], ',') == 5
    ensures |Fields(xml[start..pEnd])| >= 7 && Fields(xml[start..pEnd])[6..] == Fields(xml[p + 1..pEnd])
  {
    var a := xml[start..pEnd];
    assert a[..p - start] == xml[start..p];
    FieldsAfter(a, p - start, 5);
    assert a[p - start + 1..] == xml[p + 1..pEnd];
  }

  /** One more character counted. */
  lemma CountStep(xml: seq<char>, start: nat, p: nat)
    requires start <= p < |xml|
    ensures Count(xml[start..p + 1], ',') == Count(xml[start..p], ',') + (if xml[p] == ',' then 1 else 0)
  {
    assert xml[start..p + 1] == xml[start..p] + [xml[p]];
    CountConcat(xml[start..p], [xml[p]], ',');
  }

  /** The text of the one field s holds when it has no comma. */
  lemma FieldsOfLast(r: seq<char>)
    ensures |Fields(r)| >= 2 <==> Find(r, ',', 0).Some?
    ensures Fields(r)[0] == UpTo(r, ',')
  {
    FieldsCount(r);
  }

  /** What `parse_and_crack` keeps once it reaches the sixth comma at p:
      the text up to the next comma, if that lies inside the attribute. */
  lemma LocalSixth(xml: seq<char>, start: nat, pEnd: nat, p: nat)
    requires start <= p < pEnd <= |xml| && xml[p] == ',' && Count(xml[start..p], ',') == 5
    ensures var e := Find(xml, ',', p + 1);
            LocalHash(xml[start..pEnd])
            == if e.Some? && e.value < pEnd && e.value - (p + 1) < HASH_LIMIT then xml[p + 1..e.value] else []
  {
    LocalRestWithin(xml, p + 1, pEnd);
    LocalAfterSixth(xml, start, pEnd, p);
  }

  /** The local hash of an attribute whose sixth comma is at p. */
  lemma LocalAfterSixth(xml: seq<char>, start: nat, pEnd: nat, p: nat)
    requires start <= p < pEnd <= |xml| && xml[p] == ',' && Count(xml[start..p], ',') == 5
    ensures LocalHash(xml[start..pEnd]) == LocalRest(xml[p + 1..pEnd])
  {
    var r := xml[p + 1..pEnd];
    var fs := Fields(xml[start..pEnd]);
    SixthComma(xml, start, pEnd, p);
    assert fs[6] == Fields(r)[0] && (|fs| >= 8 <==> |Fields(r)| >= 2);
    FieldsOfLast(r);
  }

  /** The local hash read from the attribute text between from and pEnd. */
  lemma LocalRestWithin(xml: seq<char>, from: nat, pEnd: nat)
    requires from <= pEnd <= |xml|
    ensures var e := Find(xml, ',', from);
            LocalRest(xml[from..pEnd])
            == if e.Some? && e.value < pEnd && e.value - from < HASH_LIMIT then xml[from..e.value] else []
  {
    UpToWithin(xml, ',', from, pEnd);
  }

  /** The local hash once the sixth comma is passed, from the rest r of
      the attribute text. */
  function LocalRest(r: seq<char>): seq<char>
  {
    var f := UpTo(r, ',');
    if Find(r, ',', 0).Some? && |f| < HASH_LIMIT then f else []
  }

  /** The text of s[from..to] before its first c, seen from s. */
  lemma UpToWithin(s: seq<char>, c: char, from: nat, to: nat)
    requires from <= to <= |s|
    ensures var e := Find(s, c, from);
            (Find(s[from..to], c, 0).Some? <==> e.Some? && e.value < to)
            && UpTo(s[from..to], c) == if e.Some? && e.value < to then s[from..e.value] else s[from..to]
  {
    FindWithin(s, c, from, to);
  }

  /** The legacy hash once the sixth comma is passed, from the rest r of
      the attribute text. */
  function LegacyRest(r: seq<char>): seq<char>
  {
    var f := if Find(r, ',', 0).Some? then UpTo(r, ',') else UpTo(r, '"');
    if |f| < HASH_LIMIT then f else []
  }

  /** The legacy hash of an attribute whose sixth comma is at p. */
  lemma LegacyAfterSixth(xml: seq<char>, start: nat, pEnd: nat, p: nat)
    requires start <= p < pEnd <= |xml| && xml[p] == ',' && Count(xml[start..p], ',') == 5
    ensures LegacyHash(xml[start..pEnd]) == LegacyRest(xml[p + 1..pEnd])
  {
    var r := xml[p + 1..pEnd];
    SixthComma(xml, start, pEnd, p);
    FieldsOfLast(r);
    if Find(r, ',', 0).None? {
      assert UpTo(r, ',') == r;
    }
  }

  /** What `parse_xml_legacy` keeps once it reaches the sixth comma at p:
      the text up to where `LegacyEnd` ends the field, when that is short. */
  lemma LegacySixth(xml: seq<char>, start: nat, pEnd: nat, p: nat)
    requires start <= p < pEnd < |xml| && xml[pEnd] == '>' && xml[p] == ',' && Count(xml[start..p], ',') == 5
    ensures var he := LegacyEnd(xml, p + 1, pEnd);
            LegacyHash(xml[start..pEnd]) == if he - (p + 1) < HASH_LIMIT then xml[p + 1..he] else []
  {
    LegacyRestWithin(xml, p + 1, pEnd);
    LegacyAfterSixth(xml, start, pEnd, p);
  }

  /** Where `parse_xml_legacy` ends the seventh field that starts at from:
      at the next comma if it lies at or before pEnd, else at the next '"'
      if that does, else at pEnd. */
  function LegacyEnd(xml: seq<char>, from: nat, pEnd: nat): (he: nat)
    requires from <= pEnd < |xml|
    ensures from <= he <= pEnd
  {
    var c := Find(xml, ',', from);
    var q := Find(xml, '"', from);
    if c.Some? && c.value <= pEnd then c.value
    else if q.Some? && q.value <= pEnd then q.value else pEnd
  }

  /** The legacy hash read from the attribute text between from and the
      '>' at pEnd. */
  lemma LegacyRestWithin(xml: seq<char>, from: nat, pEnd: nat)
    requires from <= pEnd < |xml| && xml[pEnd] == '>'
    ensures var he := LegacyEnd(xml, from, pEnd);
            LegacyRest(xml[from..pEnd]) == if he - from < HASH_LIMIT then xml[from..he] else []
  {
    var r := xml[from..pEnd];
    var c := Find(xml, ',', from);
    var he := LegacyEnd(xml, from, pEnd);
    var f := if Find(r, ',', 0).Some? then UpTo(r, ',') else UpTo(r, '"');
    EndWithin(xml, ',', from, pEnd);
    EndWithin(xml, '"', from, pEnd);
    assert f == xml[from..he] by {
      if c.Some? && c.value <= pEnd {
        assert f == UpTo(r, ',');
      } else {
        assert f == UpTo(r, '"');
      }
    }
    assert LegacyRest(r) == if |f| < HASH_LIMIT then f else [];
  }

  /** The first c after from, looked for up to the '>' at pEnd, which is not
      c: the window xml[from..pEnd] holds it exactly when it lies at or
      before pEnd, and the text before it is the window's text up to c. */
  lemma EndWithin(xml: seq<char>, c: char, from: nat, pEnd: nat)
    requires from <= pEnd < |xml| && xml[pEnd] == '>' && c != '>'
    ensures var e := Find(xml, c, from);
            var r := xml[from..pEnd];
            (Find(r, c, 0).Some? <==> e.Some? && e.value <= pEnd)
            && UpTo(r, c) == if e.Some? && e.value <= pEnd then xml[from..e.value] else r
  {
    UpToWithin(xml, c, from, pEnd);
  }

  /** The hash extraction of `parse_and_crack` (bilitrace_local.c:316-335)
      on the attribute text xml[start..pEnd], pEnd being its '>'. */
  method ExtractLocalHash(xml: seq<char>, start: nat, pEnd: nat) returns (hash: seq<char>)
    requires start <= pEnd < |xml|
    ensures hash == LocalHash(xml[start..pEnd])
  {
    hash := [];
    var p := start;
    var commas := 0;
    while p < pEnd
      invariant start <= p <= pEnd && commas == Count(xml[start..p], ',') && commas < 6
    {
      CountStep(xml, start, p);
      if xml[p] == ',' {
        commas := commas + 1;
        if commas == 6 {
          LocalSixth(xml, start, pEnd, p);
          var hashEnd := Find(xml, ',', p + 1);
          if hashEnd.Some? && hashEnd.value < pEnd {
            var len := hashEnd.value - (p + 1);
            if len < HASH_LIMIT {
              hash := xml[p + 1..hashEnd.value];
            }
          }
          return;
        }
      }
      p := p + 1;
    }
    FieldsCount(xml[start..pEnd]);
  }

  /** The hash extraction of `parse_xml_legacy` (src/main.c:337-357, the
      same as main.c:204-224) on the attribute text xml[start..pEnd]. */
  method ExtractLegacyHash(xml: seq<char>, start: nat, pEnd: nat) returns (hash: seq<char>)
    requires start <= pEnd < |xml| && xml[pEnd] == '>'
    ensures hash == LegacyHash(xml[start..pEnd])
  {
    hash := [];
    var p := start;
    var commas := 0;
    while p < pEnd
      invariant start <= p <= pEnd && commas == Count(xml[start..p], ',') && commas < 6
    {
      CountStep(xml, start, p);
      if xml[p] == ',' {
        commas := commas + 1;
        if commas == 6 {
          LegacySixth(xml, start, pEnd, p);
          var he := Find(xml, ',', p + 1);
          if he.None? || he.value > pEnd {
            he := Find(xml, '"', p + 1);
          }
          if he.None? || he.value > pEnd {
            he := Some(pEnd);
          }
          if he.value - (p + 1) < HASH_LIMIT {
            hash := xml[p + 1..he.value];
          }
          return;
        }
      }
      p := p + 1;
    }
    FieldsCount(xml[start..pEnd]);
  }


  /** A danmaku element the walk handles: its text and the hash it extracted. */
  datatype Job = Job(content: seq<char>, hash: seq<char>)

  /** Whether a danmaku is cracked: no keyword or a text containing it,
      and a non-empty hash. */
  predicate Wanted(keyword: Option<seq<char>>, j: Job)
  {
    (keyword.None? || Contains(j.content, keyword.value)) && |j.hash| > 0
  }

  /** Where the element the walk handles at cursor lies, count of them
      handled before: the next `<d p="`, its '>' and the `</d>` after that
      (searched from just past the '>' in bilitrace_local.c, from the '>'
      itself in the main.c files). None when one of the three is missing or
      count has reached limit. */
  function NextElement(v: Variant, xml: seq<char>, cursor: nat, count: nat, limit: int): (r: Option<Found>)
    requires cursor <= |xml|
    ensures r.Some? ==> count < limit && cursor < r.value.attr <= r.value.pEnd < r.value.cEnd && r.value.cEnd + |CLOSE| <= |xml|
  {
    var d := Search(xml, OPEN, cursor);
    if d.None? || count >= limit then None
    else
      var pEnd := Find(xml, '>', d.value + |OPEN|);
      if pEnd.None? then None
      else
        var cEnd := Search(xml, CLOSE, CloseFrom(v, pEnd.value));
        if cEnd.None? then None
        else
          assert xml[cEnd.value] == CLOSE[0] && cEnd.value != pEnd.value;
          Some(Found(d.value + |OPEN|, pEnd.value, cEnd.value))
  }

  /** Where the search for `</d>` starts, given the '>' at pEnd. */
  function CloseFrom(v: Variant, pEnd: nat): nat
  {
    if v == Local then pEnd + 1 else pEnd
  }

  /** An element found: where its attribute text starts, its '>' and its
      `</d>`. */
  datatype Found = Found(attr: nat, pEnd: nat, cEnd: nat)

  /** The element f lies inside xml. */
  predicate Fits(xml: seq<char>, f: Found)
  {
    f.attr <= f.pEnd < f.cEnd && f.cEnd + |CLOSE| <= |xml|
  }

  /** The elements the walk handles from cursor, count of them handled
      before. The keyword plays no part in which elements are handled. */
  function Elements(v: Variant, xml: seq<char>, cursor: nat, count: nat, limit: int): (r: seq<Found>)
    requires cursor <= |xml|
    ensures r == [] || count + |r| <= limit
    ensures forall i :: 0 <= i < |r| ==> cursor < r[i].attr && Fits(xml, r[i])
    decreases |xml| - cursor, 1
  {
    ElementsFrom(v, xml, count, limit, NextElement(v, xml, cursor, count, limit))
  }

  /** The elements the walk handles from the one found, if any, on. */
  function ElementsFrom(v: Variant, xml: seq<char>, count: nat, limit: int, found: Option<Found>): (r: seq<Found>)
    requires found.Some? ==> Fits(xml, found.value) && count < limit
    ensures found.None? ==> r == []
    ensures r == [] || count + |r| <= limit
    ensures forall i :: 0 <= i < |r| ==> found.value.attr <= r[i].attr && Fits(xml, r[i])
    decreases if found.None? then 0 else |xml| - found.value.attr, 0
  {
    match found
    case None => []
    case Some(f) => [f] + Elements(v, xml, f.cEnd + |CLOSE|, count + 1, limit)
  }

  /** The text and hash of the element found at f. */
  function JobOf(v: Variant, xml: seq<char>, f: Found): Job
    requires Fits(xml, f)
  {
    Job(xml[f.pEnd + 1..f.cEnd], HashOf(v, xml[f.attr..f.pEnd]))
  }

  /** The text and hash of each element of fs, in order. */
  function Jobs(v: Variant, xml: seq<char>, fs: seq<Found>): (r: seq<Job>)
    requires forall i :: 0 <= i < |fs| ==> Fits(xml, fs[i])
    ensures |r| == |fs|
  {
    if fs == [] then [] else Jobs(v, xml, fs[..|fs| - 1]) + [JobOf(v, xml, fs[|fs| - 1])]
  }

  /** The elements of es that are cracked, in order. */
  function Cracked(keyword: Option<seq<char>>, es: seq<Job>): seq<Job>
  {
    if es == [] then []
    else Cracked(keyword, es[..|es| - 1]) + (if Wanted(keyword, es[|es| - 1]) then [es[|es| - 1]] else [])
  }

  /** Every cracked element is a wanted one of es and every wanted one is
      cracked. */
  lemma {:induction false} CrackedSpec(keyword: Option<seq<char>>, es: seq<Job>)
    ensures |Cracked(keyword, es)| <= |es|
    ensures forall j :: j in Cracked(keyword, es) <==> j in es && Wanted(keyword, j)
    decreases |es|
  {
    if es != [] {
      var init := es[..|es| - 1];
      CrackedSpec(keyword, init);
      assert es == init + [es[|es| - 1]];
    }
  }

  /** Cracking is a filter: it keeps relative order, so cracking a
      concatenation is cracking each part. */
  lemma {:induction false} CrackedAppend(keyword: Option<seq<char>>, xs: seq<Job>, ys: seq<Job>)
    ensures Cracked(keyword, xs + ys) == Cracked(keyword, xs) + Cracked(keyword, ys)
    decreases |ys|
  {
    if ys == [] {
      assert xs + ys == xs;
    } else {
      var init := ys[..|ys| - 1];
      assert (xs + ys)[..|xs + ys| - 1] == xs + init;
      CrackedAppend(keyword, xs, init);
    }
  }

  /** Cracking keeps everything when every element is wanted. */
  lemma {:induction false} CrackedAll(keyword: Option<seq<char>>, es: seq<Job>)
    requires forall i :: 0 <= i < |es| ==> Wanted(keyword, es[i])
    ensures Cracked(keyword, es) == es
    decreases |es|
  {
    if es != [] {
      var init := es[..|es| - 1];
      CrackedAll(keyword, init);
      assert Wanted(keyword, es[|es| - 1]);
      assert es == init + [es[|es| - 1]];
    }
  }

  /** Cracking keeps nothing when no element is wanted. */
  lemma {:induction false} CrackedNone(keyword: Option<seq<char>>, es: seq<Job>)
    requires forall i :: 0 <= i < |es| ==> !Wanted(keyword, es[i])
    ensures Cracked(keyword, es) == []
    decreases |es|
  {
    if es != [] {
      var init := es[..|es| - 1];
      CrackedNone(keyword, init);
      assert !Wanted(keyword, es[|es| - 1]);
    }
  }

  /** Cracking twice is cracking once. */
  lemma {:induction false} CrackedTwice(keyword: Option<seq<char>>, es: seq<Job>)
    ensures Cracked(keyword, Cracked(keyword, es)) == Cracked(keyword, es)
    decreases |es|
  {
    if es != [] {
      var init := es[..|es| - 1];
      var last := es[|es| - 1];
      CrackedTwice(keyword, init);
      if Wanted(keyword, last) {
        assert Cracked(keyword, es) == Cracked(keyword, init) + [last];
        CrackedSnoc(keyword, Cracked(keyword, init), last);
      } else {
        assert Cracked(keyword, es) == Cracked(keyword, init);
      }
    }
  }

  /** The hash of every handled element is short and holds no comma. */
  lemma {:induction false} JobsShape(v: Variant, xml: seq<char>, fs: seq<Found>)
    requires forall i :: 0 <= i < |fs| ==> Fits(xml, fs[i])
    ensures forall j :: j in Jobs(v, xml, fs) ==>
              |j.hash| < HASH_LIMIT && forall i :: 0 <= i < |j.hash| ==> j.hash[i] != ','
    decreases |fs|
  {
    if fs != [] {
      var f := fs[|fs| - 1];
      JobsShape(v, xml, fs[..|fs| - 1]);
      HashShape(v, xml[f.attr..f.pEnd]);
    }
  }

  /** The element at cursor, its start, '>' and `</d>` found. */
  lemma ElementAt(v: Variant, xml: seq<char>, cursor: nat, count: nat, limit: int,
                  d: nat, pEnd: nat, cEnd: nat)
    requires cursor <= |xml| && Search(xml, OPEN, cursor) == Some(d) && count < limit
    requires Find(xml, '>', d + |OPEN|) == Some(pEnd)
    requires Search(xml, CLOSE, CloseFrom(v, pEnd)) == Some(cEnd)
    ensures NextElement(v, xml, cursor, count, limit) == Some(Found(d + |OPEN|, pEnd, cEnd))
  {
  }

  /** The walk goes on from where the handled element ends. */
  lemma ElementsStep(v: Variant, xml: seq<char>, cursor: nat, count: nat, limit: int, f: Found)
    requires cursor <= |xml| && NextElement(v, xml, cursor, count, limit) == Some(f)
    ensures Elements(v, xml, cursor, count, limit) == [f] + Elements(v, xml, f.cEnd + |CLOSE|, count + 1, limit)
  {
  }

  /** The walk stops where no element is found. */
  lemma ElementsEnd(v: Variant, xml: seq<char>, cursor: nat, count: nat, limit: int)
    requires cursor <= |xml| && NextElement(v, xml, cursor, count, limit).None?
    ensures Elements(v, xml, cursor, count, limit) == []
  {
  }

  /** One round of the walk: the element f found at cursor joins the
      handled ones and the walk goes on after its `</d>`. */
  lemma Advance(v: Variant, xml: seq<char>, all: seq<Found>, handled: seq<Found>,
                cursor: nat, count: nat, limit: int, f: Found, next: nat)
    requires cursor <= |xml| && NextElement(v, xml, cursor, count, limit) == Some(f)
    requires all == handled + Elements(v, xml, cursor, count, limit)
    requires next == f.cEnd + |CLOSE|
    ensures cursor < next <= |xml| && Fits(xml, f)
    ensures all == (handled + [f]) + Elements(v, xml, next, count + 1, limit)
  {
    ElementsStep(v, xml, cursor, count, limit, f);
  }

  /** One more job is cracked exactly when it is wanted. */
  lemma CrackedSnoc(keyword: Option<seq<char>>, es: seq<Job>, j: Job)
    ensures Cracked(keyword, es + [j]) == Cracked(keyword, es) + (if Wanted(keyword, j) then [j] else [])
  {
    assert (es + [j])[..|es|] == es;
  }

  /** One more element found gives one more job. */
  lemma JobsSnoc(v: Variant, xml: seq<char>, fs: seq<Found>, f: Found)
    requires Fits(xml, f) && forall i :: 0 <= i < |fs| ==> Fits(xml, fs[i])
    ensures forall i :: 0 <= i < |fs + [f]| ==> Fits(xml, (fs + [f])[i])
    ensures Jobs(v, xml, fs + [f]) == Jobs(v, xml, fs) + [JobOf(v, xml, f)]
  {
    assert (fs + [f])[..|fs|] == fs;
  }

  /** The job of one more handled element f is cracked exactly when it is
      wanted. */
  lemma CrackedStep(v: Variant, xml: seq<char>, keyword: Option<seq<char>>, handled: seq<Found>, f: Found, jobs: seq<Job>)
    requires Fits(xml, f) && forall i :: 0 <= i < |handled| ==> Fits(xml, handled[i])
    requires jobs == Cracked(keyword, Jobs(v, xml, handled))
    ensures forall i :: 0 <= i < |handled + [f]| ==> Fits(xml, (handled + [f])[i])
    ensures var j := JobOf(v, xml, f);
            Cracked(keyword, Jobs(v, xml, handled + [f])) == jobs + (if Wanted(keyword, j) then [j] else [])
  {
    JobsSnoc(v, xml, handled, f);
    CrackedSnoc(keyword, Jobs(v, xml, handled), JobOf(v, xml, f));
  }

  /** The searches at the head of each round of the walk: `strstr` for
      `<d p="`, `strchr` for its '>', `strstr` for `</d>` (bilitrace_local.c:
      297-306, src/main.c:326-335). */
  method LocateElement(v: Variant, xml: seq<char>, cursor: nat, count: nat, limit: int) returns (r: Option<Found>)
    requires cursor <= |xml|
    ensures r == NextElement(v, xml, cursor, count, limit)
  {
    var d := Search(xml, OPEN, cursor);
    if d.None? || count >= limit {
      return None;
    }
    var pEnd := Find(xml, '>', d.value + |OPEN|);
    if pEnd.None? {
      return None;
    }
    var cEnd := Search(xml, CLOSE, CloseFrom(v, pEnd.value));
    if cEnd.None? {
      return None;
    }
    ElementAt(v, xml, cursor, count, limit, d.value, pEnd.value, cEnd.value);
    r := Some(Found(d.value + |OPEN|, pEnd.value, cEnd.value));
  }

  /** The body of one round of `parse_and_crack` (bilitrace_local.c:
      308-343): the text, the hash, and whether the danmaku is cracked. */
  method LocalJob(xml: seq<char>, keyword: Option<seq<char>>, f: Found) returns (job: Job, wanted: bool)
    requires Fits(xml, f)
    ensures job == JobOf(Local, xml, f) && (wanted <==> Wanted(keyword, job))
  {
    var text := xml[f.pEnd + 1..f.cEnd];
    var hash := ExtractLocalHash(xml, f.attr, f.pEnd);
    var shouldProcess := true;
    if keyword.Some? && !Contains(text, keyword.value) {
      shouldProcess := false;
    }
    job := Job(text, hash);
    wanted := shouldProcess && |hash| > 0;
  }

  /** The body of one round of `parse_xml_legacy` (src/main.c:337-366):
      the content, the hash, and whether the danmaku is cracked. */
  method LegacyJob(xml: seq<char>, keyword: Option<seq<char>>, f: Found) returns (job: Job, wanted: bool)
    requires Fits(xml, f) && xml[f.pEnd] == '>'
    ensures job == JobOf(Legacy, xml, f) && (wanted <==> Wanted(keyword, job))
  {
    var content := xml[f.pEnd + 1..f.cEnd];
    var hash := ExtractLegacyHash(xml, f.attr, f.pEnd);
    var shouldPrint := keyword.None? || Contains(content, keyword.value);
    job := Job(content, hash);
    wanted := shouldPrint && |hash| > 0;
  }

  /** `parse_and_crack` (bilitrace_local.c:287-365): the cursor walk over
      the XML. It handles the elements of Elements(Local, ...) and hands the
      wanted ones to `crack_hash`, here returned in order. */
  method ParseAndCrack(xml: seq<char>, keyword: Option<seq<char>>, limit: int) returns (count: nat, jobs: seq<Job>)
    ensures count == |Elements(Local, xml, 0, 0, limit)|
    ensures jobs == Cracked(keyword, Jobs(Local, xml, Elements(Local, xml, 0, 0, limit)))
  {
    var cursor: nat := 0;
    count, jobs := 0, [];
    ghost var handled: seq<Found> := [];
    ghost var all := Elements(Local, xml, 0, 0, limit);
    assert all == handled + all;
    while true
      invariant cursor <= |xml| && count == |handled|
      invariant all == handled + Elements(Local, xml, cursor, count, limit)
      invariant forall i :: 0 <= i < |handled| ==> Fits(xml, handled[i])
      invariant jobs == Cracked(keyword, Jobs(Local, xml, handled))
      decreases |xml| - cursor
    {
      var found := LocateElement(Local, xml, cursor, count, limit);
      if found.None? {
        ElementsEnd(Local, xml, cursor, count, limit);
        break;
      }
      var f := found.value;
      var next := f.cEnd + |CLOSE|;
      Advance(Local, xml, all, handled, cursor, count, limit, f, next);
      CrackedStep(Local, xml, keyword, handled, f, jobs);
      var job, wanted := LocalJob(xml, keyword, f);
      if wanted {
        jobs := jobs + [job];
      }
      handled := handled + [f];
      cursor := next;
      count := count + 1;
    }
    assert handled + [] == handled;
  }

  /** `parse_xml_legacy` (src/main.c:316-378, the same as main.c:183-245):
      the walk of Elements(Legacy, ...), the wanted elements handed to
      `crack_hash`. */
  method ParseXmlLegacy(xml: seq<char>, keyword: Option<seq<char>>, limit: int) returns (count: nat, jobs: seq<Job>)
    ensures count == |Elements(Legacy, xml, 0, 0, limit)|
    ensures jobs == Cracked(keyword, Jobs(Legacy, xml, Elements(Legacy, xml, 0, 0, limit)))
  {
    var cursor: nat := 0;
    count, jobs := 0, [];
    ghost var handled: seq<Found> := [];
    ghost var all := Elements(Legacy, xml, 0, 0, limit);
    assert all == handled + all;
    while true
      invariant cursor <= |xml| && count == |handled|
      invariant all == handled + Elements(Legacy, xml, cursor, count, limit)
      invariant forall i :: 0 <= i < |handled| ==> Fits(xml, handled[i])
      invariant jobs == Cracked(keyword, Jobs(Legacy, xml, handled))
      decreases |xml| - cursor
    {
      var found := LocateElement(Legacy, xml, cursor, count, limit);
      if found.None? {
        ElementsEnd(Legacy, xml, cursor, count, limit);
        break;
      }
      var f := found.value;
      var next := f.cEnd + |CLOSE|;
      Advance(Legacy, xml, all, handled, cursor, count, limit, f, next);
      CrackedStep(Legacy, xml, keyword, handled, f, jobs);
      var job, wanted := LegacyJob(xml, keyword, f);
      if wanted {
        jobs := jobs + [job];
      }
      handled := handled + [f];
      cursor := next;
      count := count + 1;
    }
    assert handled + [] == handled;
  }
}
