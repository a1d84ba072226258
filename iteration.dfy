/** Repeating a step a number of times and folding a step over a byte string:
    the two shapes in which every checksum of this model is defined. The
    lemmas here are generic, so the algebra of the concrete register type
    never enters the inductions. */
module Iteration {

  /** f applied k times to c. */
  function Iterate<T>(k: nat, f: T -> T, c: T): T
    decreases k
  {
    if k == 0 then c else Iterate(k - 1, f, f(c))
  }

  /** The state after feeding `data` to `step` one byte at a time, starting from c. */
  function Fold<T>(step: (T, bv8) -> T, c: T, data: seq<bv8>): T
    decreases |data|
  {
    if data == [] then c else step(Fold(step, c, data[..|data| - 1]), data[|data| - 1])
  }

  lemma {:induction false} IterateAdd<T>(a: nat, b: nat, f: T -> T, c: T)
    ensures Iterate(a + b, f, c) == Iterate(b, f, Iterate(a, f, c))
    decreases a
  {
    if a > 0 {
      IterateAdd(a - 1, b, f, f(c));
    }
  }

  lemma {:induction false} IterateSnoc<T>(n: nat, f: T -> T, c: T)
    ensures Iterate(n + 1, f, c) == f(Iterate(n, f, c))
    decreases n
  {
    if n > 0 {
      IterateSnoc(n - 1, f, f(c));
    }
  }

  /** Iterating g, which is m steps of f, n times is n * m steps of f. */
  lemma {:induction false} IterateNest<T>(n: nat, m: nat, f: T -> T, g: T -> T, c: T)
    requires forall x :: g(x) == Iterate(m, f, x)
    ensures Iterate(n, g, c) == Iterate(n * m, f, c)
    decreases n
  {
    if n > 0 {
      IterateNest(n - 1, m, f, g, g(c));
      IterateAdd(m, (n - 1) * m, f, c);
    }
  }

  /** A step that distributes over `add` keeps doing so when iterated. */
  lemma {:induction false} IterateAdditive<T>(k: nat, f: T -> T, add: (T, T) -> T, x: T, y: T)
    requires forall a, b :: f(add(a, b)) == add(f(a), f(b))
    ensures Iterate(k, f, add(x, y)) == add(Iterate(k, f, x), Iterate(k, f, y))
    decreases k
  {
    if k > 0 {
      IterateAdditive(k - 1, f, add, f(x), f(y));
    }
  }

  lemma FoldSnoc<T>(step: (T, bv8) -> T, c: T, s: seq<bv8>, b: bv8)
    ensures Fold(step, c, s + [b]) == step(Fold(step, c, s), b)
  {
    assert (s + [b])[..|s|] == s;
  }

  /** Feeding s + t is feeding s, then t from where s left the state. */
  lemma {:induction false} FoldAppend<T>(step: (T, bv8) -> T, c: T, s: seq<bv8>, t: seq<bv8>)
    ensures Fold(step, c, s + t) == Fold(step, Fold(step, c, s), t)
    decreases |t|
  {
    if t == [] {
      assert s + t == s;
    } else {
      var init := t[..|t| - 1];
      var last := t[|t| - 1];
      assert t == init + [last];
      assert s + t == (s + init) + [last];
      FoldAppend(step, c, s, init);
      FoldSnoc(step, c, s + init, last);
      FoldSnoc(step, Fold(step, c, s), init, last);
    }
  }

  /** Two steps that agree everywhere fold alike. */
  lemma {:induction false} FoldAgree<T>(s1: (T, bv8) -> T, s2: (T, bv8) -> T, c: T, data: seq<bv8>)
    requires forall x, b :: s1(x, b) == s2(x, b)
    ensures Fold(s1, c, data) == Fold(s2, c, data)
    decreases |data|
  {
    if data != [] {
      FoldAgree(s1, s2, c, data[..|data| - 1]);
    }
  }

  /** When a step carries a second summand y along by g, independently of the
      input, the fold from add(x, y) is the fold from x plus y carried |s| times. */
  lemma {:induction false} FoldShift<T>(step: (T, bv8) -> T, add: (T, T) -> T, g: T -> T, x: T, y: T, s: seq<bv8>)
    requires forall u, v, b :: step(add(u, v), b) == add(step(u, b), g(v))
    ensures Fold(step, add(x, y), s) == add(Fold(step, x, s), Iterate(|s|, g, y))
    decreases |s|
  {
    if s != [] {
      var init := s[..|s| - 1];
      FoldShift(step, add, g, x, y, init);
      IterateSnoc(|init|, g, y);
    }
  }
}
