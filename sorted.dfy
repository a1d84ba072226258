/** Ascending listings of integer sets, as Python's `sorted(s)` and SQL's
    `ORDER BY uid` produce them for the whitelist scripts. */
module Sorting {

  /** Every element of s is smaller than the next: ascending, no repeats. */
  predicate Ascending(s: seq<int>)
  {
    forall i, j :: 0 <= i < j < |s| ==> s[i] < s[j]
  }

  /** The elements of s. */
  function Elems(s: seq<int>): set<int>
  {
    set x | x in s
  }

  /** A set other than the empty one has an element. */
  lemma Inhabited(s: set<int>)
    requires s != {}
    ensures exists y :: y in s
  {
    if forall y :: y !in s {
      assert false;
    }
  }

  /** m is the least element of s. */
  predicate IsLeast(m: int, s: set<int>)
  {
    m in s && forall x :: x in s ==> m <= x
  }

  /** A non-empty set of integers has a least element. */
  lemma {:induction false} HasLeast(s: set<int>)
    requires s != {}
    ensures exists m :: IsLeast(m, s)
    decreases |s|
  {
    Inhabited(s);
    var y :| y in s;
    var rest := s - {y};
    if rest == {} {
      assert s == {y};
      assert IsLeast(y, s);
    } else {
      HasLeast(rest);
      var m :| IsLeast(m, rest);
      var least := if y < m then y else m;
      forall x | x in s
        ensures least <= x
      {
        if x != y {
          assert x in rest;
        }
      }
      assert IsLeast(least, s);
    }
  }

  /** A set listed in ascending order, smallest first, each element once. */
  method SortSet(s: set<int>) returns (r: seq<int>)
    ensures Ascending(r) && Elems(r) == s && |r| == |s|
  {
    var rest := s;
    r := [];
    while rest != {}
      invariant Ascending(r) && Elems(r) + rest == s && Elems(r) !! rest
      invariant |r| + |rest| == |s|
      invariant forall i, x :: 0 <= i < |r| && x in rest ==> r[i] < x
      decreases |rest|
    {
      HasLeast(rest);
      var m :| IsLeast(m, rest);
      Take(r, rest, m);
      r, rest := r + [m], rest - {m};
    }
  }

  /** One turn of SortSet: the least element moves from rest to the end of
      r. */
  lemma Take(r: seq<int>, rest: set<int>, m: int)
    requires Ascending(r) && Elems(r) !! rest && IsLeast(m, rest)
    requires forall i, x :: 0 <= i < |r| && x in rest ==> r[i] < x
    ensures var r', rest' := r + [m], rest - {m};
      && Ascending(r') && Elems(r') + rest' == Elems(r) + rest && Elems(r') !! rest'
      && |r'| + |rest'| == |r| + |rest|
      && forall i, x :: 0 <= i < |r'| && x in rest' ==> r'[i] < x
  {
    var r', rest' := r + [m], rest - {m};
    assert Elems(r') == Elems(r) + {m};
    forall i, x | 0 <= i < |r'| && x in rest'
      ensures r'[i] < x
    {
      if i < |r| {
        assert x in rest;
      } else {
        assert m <= x && m != x;
      }
    }
  }

  /** An ascending sequence has as many elements as its length. */
  lemma {:induction false} DistinctSize(s: seq<int>)
    requires Ascending(s)
    ensures |Elems(s)| == |s|
    decreases |s|
  {
    if s != [] {
      var t := s[..|s| - 1];
      assert Ascending(t);
      DistinctSize(t);
      assert Elems(s) == Elems(t) + {s[|s| - 1]};
      assert s[|s| - 1] !in Elems(t);
    }
  }

  /** There is one ascending listing of a set: any two agree. */
  lemma {:induction false} AscendingUnique(a: seq<int>, b: seq<int>)
    requires Ascending(a) && Ascending(b) && Elems(a) == Elems(b)
    ensures a == b
    decreases |a|
  {
    DistinctSize(a);
    DistinctSize(b);
    if a != [] {
      assert a[0] == b[0] by {
        assert a[0] in Elems(b) && b[0] in Elems(a);
      }
      var a', b' := a[1..], b[1..];
      assert Elems(a') == Elems(a) - {a[0]} by {
        forall x ensures x in Elems(a') <==> x in Elems(a) - {a[0]} {
          if x in Elems(a) && x != a[0] {
            var i :| 0 <= i < |a| && a[i] == x;
            assert a'[i - 1] == x;
          }
        }
      }
      assert Elems(b') == Elems(b) - {b[0]} by {
        forall x ensures x in Elems(b') <==> x in Elems(b) - {b[0]} {
          if x in Elems(b) && x != b[0] {
            var i :| 0 <= i < |b| && b[i] == x;
            assert b'[i - 1] == x;
          }
        }
      }
      AscendingUnique(a', b');
      assert a == [a[0]] + a' && b == [b[0]] + b';
    }
  }
}
