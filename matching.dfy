/** The candidate matcher of scripts/match_whitelist.py: candidate uids are
    read one per line from a text file and intersected with the uid
    whitelist; the matches are reported in ascending order. */
module Matching {
  import opened Wrappers
  import opened Sorting
  import DecimalString

  /** Python's `str.isspace`: the ASCII controls tab to carriage return, the
      four information separators, space, and the Unicode spaces and line
      separators. */
  predicate IsSpace(c: char)
  {
    var n := c as int;
    || 0x09 <= n <= 0x0d || 0x1c <= n <= 0x20 || n == 0x85 || n == 0xa0 || n == 0x1680
    || 0x2000 <= n <= 0x200a || n == 0x2028 || n == 0x2029 || n == 0x202f || n == 0x205f
    || n == 0x3000
  }

  /** The number of whitespace characters that open s. */
  function Lead(s: string): (n: nat)
    ensures n <= |s|
    ensures forall k :: 0 <= k < n ==> IsSpace(s[k])
    ensures n < |s| ==> !IsSpace(s[n])
    decreases |s|
  {
    if s != [] && IsSpace(s[0]) then 1 + Lead(s[1..]) else 0
  }

  /** The number of whitespace characters that close s. */
  function Trail(s: string): (n: nat)
    ensures n <= |s|
    ensures forall k :: |s| - n <= k < |s| ==> IsSpace(s[k])
    ensures n < |s| ==> !IsSpace(s[|s| - n - 1])
    decreases |s|
  {
    if s != [] && IsSpace(s[|s| - 1]) then 1 + Trail(s[..|s| - 1]) else 0
  }

  /** `str.strip()`: s without its leading and trailing whitespace. */
  function Strip(s: string): string
  {
    var t := s[Lead(s)..];
    t[..|t| - Trail(t)]
  }

  /** What stripping leaves: a slice of s, with whitespace only outside it
      and no whitespace at either of its ends. */
  lemma StripShape(s: string)
    ensures exists i, j ::
      && 0 <= i <= j <= |s| && Strip(s) == s[i..j]
      && (forall k :: 0 <= k < i ==> IsSpace(s[k]))
      && (forall k :: j <= k < |s| ==> IsSpace(s[k]))
    ensures Strip(s) != [] ==> !IsSpace(Strip(s)[0]) && !IsSpace(Strip(s)[|Strip(s)| - 1])
  {
    var i := Lead(s);
    var t := s[i..];
    var n := Trail(t);
    var j := i + |t| - n;
    var r := Strip(s);
    assert r == s[i..j] == t[..|t| - n];
    forall k | j <= k < |s|
      ensures IsSpace(s[k])
    {
      assert s[k] == t[k - i];
    }
    assert (forall k :: 0 <= k < i ==> IsSpace(s[k])) && (forall k :: j <= k < |s| ==> IsSpace(s[k]));
    if r != [] {
      assert r[0] == s[i] && !IsSpace(s[i]);
      assert r[|r| - 1] == t[|t| - n - 1] && !IsSpace(t[|t| - n - 1]);
    }
  }

  /** A text with no whitespace at its ends strips to itself, so stripping
      twice is stripping once. */
  lemma StripTrimmed(t: string)
    requires t != [] ==> !IsSpace(t[0]) && !IsSpace(t[|t| - 1])
    ensures Strip(t) == t
  {
  }

  lemma StripIdempotent(s: string)
    ensures Strip(Strip(s)) == Strip(s)
  {
    StripShape(s);
    StripTrimmed(Strip(s));
  }

  predicate IsDigitChar(c: char)
  {
    '0' <= c <= '9'
  }

  /** The body of an integer literal `int()` accepts: decimal digits, with
      single underscores allowed between two digits. */
  predicate DigitRun(t: string)
  {
    && |t| > 0
    && forall k :: 0 <= k < |t| ==>
         IsDigitChar(t[k]) || (t[k] == '_' && 0 < k < |t| - 1 && IsDigitChar(t[k - 1]) && IsDigitChar(t[k + 1]))
  }

  /** The value of the digits of t, underscores ignored. */
  function Value(t: string): nat
    decreases |t|
  {
    if t == [] then 0
    else
      var c := t[|t| - 1];
      if IsDigitChar(c) then 10 * Value(t[..|t| - 1]) + (c as int - '0' as int)
      else Value(t[..|t| - 1])
  }

  /** `int(t)` on a stripped line: an optional sign, then a digit run;
      None where Python raises ValueError. */
  function PyInt(t: string): Option<int>
  {
    if t != [] && (t[0] == '+' || t[0] == '-') then
      if DigitRun(t[1..]) then Some(if t[0] == '-' then -(Value(t[1..]) as int) else Value(t[1..])) else None
    else if DigitRun(t) then Some(Value(t))
    else None
  }

  /** `str(n)`: the decimal text of an integer, with '-' before a negative one. */
  function Show(n: int): (s: string)
    ensures s != [] && IsDigitChar(s[|s| - 1])
    ensures IsDigitChar(s[0]) || s[0] == '-'
  {
    var m := if n < 0 then -n else n;
    DecimalString.DecimalCanonical(m);
    var digits := Text(m);
    if n < 0 then "-" + digits else digits
  }

  /** The digits of m as characters. */
  function Text(m: nat): (s: string)
    ensures |s| == |DecimalString.Decimal(m)| && forall k :: 0 <= k < |s| ==> IsDigitChar(s[k])
  {
    DecimalString.DecimalCanonical(m);
    var d := DecimalString.Decimal(m);
    seq(|d|, k requires 0 <= k < |d| => (d[k] as int) as char)
  }

  /** Reading a digit text gives the number it spells. */
  lemma {:induction false} ValueOfDigits(d: seq<bv8>)
    requires DecimalString.AllDigits(d)
    ensures Value(seq(|d|, k requires 0 <= k < |d| => (d[k] as int) as char)) == DecimalString.ParseDecimal(d)
    decreases |d|
  {
    if d != [] {
      var init := d[..|d| - 1];
      var t := seq(|d|, k requires 0 <= k < |d| => (d[k] as int) as char);
      assert t[..|t| - 1] == seq(|init|, k requires 0 <= k < |init| => (init[k] as int) as char);
      ValueOfDigits(init);
    }
  }

  /** `int(str(n)) == n`: the text `str` writes reads back as the same number. */
  lemma PyIntShow(n: int)
    ensures PyInt(Show(n)) == Some(n)
  {
    var m := if n < 0 then -n else n;
    DecimalString.DecimalRoundTrip(m);
    ValueOfDigits(DecimalString.Decimal(m));
    var digits := Text(m);
    assert DigitRun(digits);
    if n < 0 {
      assert Show(n)[1..] == digits;
    }
  }

  /** One line of the candidates file: its value, or None for a blank line,
      a '#' comment, or text on which `int()` raises ValueError. */
  function LineValue(line: string): Option<int>
  {
    var t := Strip(line);
    if t == [] || t[0] == '#' then None else PyInt(t)
  }

  /** The candidate set of a file's lines. */
  function Candidates(lines: seq<string>): set<int>
    decreases |lines|
  {
    if lines == [] then {}
    else
      var last := LineValue(lines[|lines| - 1]);
      Candidates(lines[..|lines| - 1]) + if last.Some? then {last.value} else {}
  }

  /** The candidates are exactly the values of the lines that hold one:
      blank, comment and unparsable lines add nothing, and a uid on several
      lines is there once. */
  lemma {:induction false} CandidatesMeans(lines: seq<string>, x: int)
    ensures x in Candidates(lines) <==> exists k :: 0 <= k < |lines| && LineValue(lines[k]) == Some(x)
    decreases |lines|
  {
    if lines != [] {
      var init, last := lines[..|lines| - 1], lines[|lines| - 1];
      CandidatesMeans(init, x);
      assert lines == init + [last];
      assert x in Candidates(lines) <==> x in Candidates(init) || LineValue(last) == Some(x);
      if k :| 0 <= k < |lines| && LineValue(lines[k]) == Some(x) {
        if k < |init| {
          assert LineValue(init[k]) == Some(x);
        }
      }
    }
  }

  /** A file holding each uid of xs on a line of its own, as `str` writes
      them, loads back as the set of those uids. */
  lemma LoadWritten(xs: seq<int>, lines: seq<string>)
    requires |lines| == |xs| && forall k :: 0 <= k < |xs| ==> lines[k] == Show(xs[k]) + "\n"
    ensures Candidates(lines) == set x | x in xs
  {
    forall k | 0 <= k < |xs|
      ensures LineValue(lines[k]) == Some(xs[k])
    {
      ShowLine(xs[k]);
    }
    forall x
      ensures x in Candidates(lines) <==> x in xs
    {
      CandidatesMeans(lines, x);
      if x in xs {
        var k :| 0 <= k < |xs| && xs[k] == x;
        assert LineValue(lines[k]) == Some(x);
      }
    }
  }

  /** One line written by `str(n)` followed by a newline reads back as n. */
  lemma ShowLine(n: int)
    ensures LineValue(Show(n) + "\n") == Some(n)
  {
    var s := Show(n);
    var line := s + "\n";
    assert Lead(line) == 0;
    assert line[Lead(line)..] == line;
    assert Trail(line) == 1 by {
      assert line[..|line| - 1] == s;
    }
    assert Strip(line) == s;
    PyIntShow(n);
  }

  /** Reading one more line adds that line's value, if it has one. */
  lemma CandidatesStep(lines: seq<string>, i: nat)
    requires i < |lines|
    ensures Candidates(lines[..i + 1])
      == Candidates(lines[..i]) + if LineValue(lines[i]).Some? then {LineValue(lines[i]).value} else {}
  {
    assert lines[..i + 1][..i] == lines[..i] && lines[..i + 1][i] == lines[i];
  }

  /** `load_candidates` over the lines of a file that opened, or the empty
      set when it could not be opened. */
  method LoadCandidates(file: Option<seq<string>>) returns (uids: set<int>)
    ensures uids == if file.Some? then Candidates(file.value) else {}
  {
    uids := {};
    if file.None? {
      return;
    }
    var lines := file.value;
    var i := 0;
    while i < |lines|
      invariant i <= |lines|
      invariant uids == Candidates(lines[..i])
    {
      CandidatesStep(lines, i);
      var line := Strip(lines[i]);
      if line != [] && line[0] != '#' {
        match PyInt(line)
        case Some(x) => uids := uids + {x};
        case None =>
      }
      i := i + 1;
    }
    assert lines[..i] == lines;
  }

  /** `load_whitelist`: the stored uids, or the empty set when the database
      cannot be read. */
  function LoadWhitelist(db: Option<set<int>>): set<int>
  {
    if db.Some? then db.value else {}
  }

  /** How `main` ends. */
  datatype Outcome =
    | Usage                      // fewer than one argument: usage text, exit status 1
    | EmptyWhitelist             // nothing to match against: exit status 1
    | Report(matches: seq<int>)  // the matches listed in order, exit status 0

  function ExitStatus(o: Outcome): int
  {
    if o.Report? then 0 else 1
  }

  /** `main`: `argc` counts the program name as `sys.argv` does. */
  method MatchWhitelist(argc: nat, db: Option<set<int>>, file: Option<seq<string>>) returns (o: Outcome)
    ensures o == Usage <==> argc < 2
    ensures o == EmptyWhitelist <==> 2 <= argc && LoadWhitelist(db) == {}
    ensures o.Report? ==>
      && Ascending(o.matches)
      && Elems(o.matches) == LoadWhitelist(db) * (if file.Some? then Candidates(file.value) else {})
  {
    if argc < 2 {
      return Usage;
    }
    var whitelist := LoadWhitelist(db);
    if whitelist == {} {
      return EmptyWhitelist;
    }
    var candidates := LoadCandidates(file);
    var matches := candidates * whitelist;
    var listed := SortSet(matches);
    o := Report(listed);
  }
}
