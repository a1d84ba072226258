/** The C library searches the danmaku tools build on, over text that holds
    no NUL: `strchr`, `strstr`, and the comma-separated fields that the
    hash extraction counts its way through. */
module CText {
  import opened Wrappers

  /** `strchr(s + from, c)`: the first position at or after from holding c. */
  function Find(s: seq<char>, c: char, from: nat): (r: Option<nat>)
    requires from <= |s|
    ensures r.Some? ==> from <= r.value < |s| && s[r.value] == c
    ensures r.Some? ==> forall i :: from <= i < r.value ==> s[i] != c
    ensures r.None? ==> forall i :: from <= i < |s| ==> s[i] != c
    decreases |s| - from
  {
    if from == |s| then None
    else if s[from] == c then Some(from)
    else Find(s, c, from + 1)
  }

  /** pat occurs in s at i. */
  predicate OccursAt(s: seq<char>, pat: seq<char>, i: nat)
  {
    i + |pat| <= |s| && s[i..i + |pat|] == pat
  }

  /** `strstr(s + from, pat)`: the first occurrence of pat at or after from. */
  function Search(s: seq<char>, pat: seq<char>, from: nat): (r: Option<nat>)
    requires from <= |s|
    ensures r.Some? ==> from <= r.value && OccursAt(s, pat, r.value)
    ensures r.Some? ==> forall i :: from <= i < r.value ==> !OccursAt(s, pat, i)
    ensures r.None? ==> forall i :: from <= i <= |s| ==> !OccursAt(s, pat, i)
    decreases |s| - from
  {
    if OccursAt(s, pat, from) then Some(from)
    else if from == |s| then None
    else Search(s, pat, from + 1)
  }

  /** `strstr(s, pat) != NULL`. */
  predicate Contains(s: seq<char>, pat: seq<char>)
  {
    Search(s, pat, 0).Some?
  }

  /** The C test agrees with occurrence anywhere in s; the empty pattern
      is found in every string. */
  lemma ContainsIff(s: seq<char>, pat: seq<char>)
    ensures Contains(s, pat) <==> exists i :: 0 <= i <= |s| && OccursAt(s, pat, i)
    ensures pat == [] ==> Contains(s, pat)
  {
    if pat == [] {
      assert OccursAt(s, pat, 0);
    }
  }

  /** How many times c occurs in s. */
  function Count(s: seq<char>, c: char): nat
  {
    if s == [] then 0 else (if s[0] == c then 1 else 0) + Count(s[1..], c)
  }

  lemma {:induction false} CountConcat(x: seq<char>, y: seq<char>, c: char)
    ensures Count(x + y, c) == Count(x, c) + Count(y, c)
    decreases |x|
  {
    if x != [] {
      assert (x + y)[0] == x[0] && (x + y)[1..] == x[1..] + y;
      CountConcat(x[1..], y, c);
    } else {
      assert x + y == y;
    }
  }

  lemma {:induction false} CountNone(x: seq<char>, c: char)
    requires forall i :: 0 <= i < |x| ==> x[i] != c
    ensures Count(x, c) == 0
    decreases |x|
  {
    if x != [] {
      CountNone(x[1..], c);
    }
  }

  /** The text before the first c, or all of s when there is none. */
  function UpTo(s: seq<char>, c: char): (r: seq<char>)
    ensures r <= s && forall i :: 0 <= i < |r| ==> r[i] != c
    ensures |r| < |s| ==> s[|r|] == c
  {
    match Find(s, c, 0)
    case None => s
    case Some(i) => s[..i]
  }

  /** The comma-separated fields of s, as a `split(',')` gives them. */
  function Fields(s: seq<char>): seq<seq<char>>
    decreases |s|
  {
    match Find(s, ',', 0)
    case None => [s]
    case Some(i) => [s[..i]] + Fields(s[i + 1..])
  }

  /** There is one field more than there are commas, and the first field
      is the text before the first comma. */
  lemma {:induction false} FieldsCount(s: seq<char>)
    ensures |Fields(s)| == Count(s, ',') + 1
    ensures Fields(s)[0] == UpTo(s, ',')
    decreases |s|
  {
    match Find(s, ',', 0)
    case None =>
      CountNone(s, ',');
    case Some(i) =>
      assert s == s[..i] + ([','] + s[i + 1..]);
      CountNone(s[..i], ',');
      CountConcat(s[..i], [','] + s[i + 1..], ',');
      FieldsCount(s[i + 1..]);
  }

  /** The commas before j, the first one at i among them. */
  lemma CountAfterFirst(s: seq<char>, i: nat, j: nat)
    requires i < j <= |s| && Find(s, ',', 0) == Some(i)
    ensures Count(s[..j], ',') == 1 + Count(s[i + 1..j], ',')
  {
    CountNone(s[..i], ',');
    assert s[..j] == s[..i] + s[i..j];
    CountConcat(s[..i], s[i..j], ',');
    assert s[i..j][1..] == s[i + 1..j];
  }

  /** Dropping one more element from the front of a longer sequence. */
  lemma DropCons<T>(x: T, ys: seq<T>, k: nat)
    requires k <= |ys|
    ensures ([x] + ys)[k + 1..] == ys[k..]
  {
  }

  /** After the comma at j that has k commas before it come the fields of
      the text behind j. */
  lemma {:induction false} FieldsAfter(s: seq<char>, j: nat, k: nat)
    requires j < |s| && s[j] == ',' && Count(s[..j], ',') == k
    ensures |Fields(s)| >= k + 2 && Fields(s)[k + 1..] == Fields(s[j + 1..])
    decreases k, 1
  {
    var i := Find(s, ',', 0).value;
    if i == j {
      var t := s[i + 1..];
      assert Fields(s) == [s[..i]] + Fields(t);
      FieldsCount(t);
      CountNone(s[..i], ',');
      DropCons(s[..i], Fields(t), 0);
    } else {
      FieldsAfterLater(s, i, j, k);
    }
  }

  /** FieldsAfter when the first comma, at i, comes before j. */
  lemma {:induction false} FieldsAfterLater(s: seq<char>, i: nat, j: nat, k: nat)
    requires i < j < |s| && s[j] == ',' && Count(s[..j], ',') == k && Find(s, ',', 0) == Some(i)
    ensures |Fields(s)| >= k + 2 && Fields(s)[k + 1..] == Fields(s[j + 1..])
    decreases k, 0
  {
    var t := s[i + 1..];
    CountAfterFirst(s, i, j);
    assert t[..j - i - 1] == s[i + 1..j];
    FieldsAfter(t, j - i - 1, k - 1);
    assert t[j - i..] == s[j + 1..];
    DropCons(s[..i], Fields(t), k);
    assert Fields(s) == [s[..i]] + Fields(t);
  }
}
