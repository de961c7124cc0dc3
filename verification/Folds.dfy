/** Running a step function over a sequence of inputs, stated without looking into the step. */
module Folds {

  function Fold<R, T>(step: (R, T) -> R, c: R, xs: seq<T>): (r: R)
  {
    if xs == [] then c else step(Fold(step, c, xs[..|xs| - 1]), xs[|xs| - 1])
  }

  lemma {:induction false} FoldConcat<R, T>(step: (R, T) -> R, c: R, xs: seq<T>, ys: seq<T>)
    ensures Fold(step, c, xs + ys) == Fold(step, Fold(step, c, xs), ys)
  {
    if ys == [] {
      assert xs + ys == xs;
    } else {
      assert (xs + ys)[..|xs + ys| - 1] == xs + ys[..|ys| - 1];
      FoldConcat(step, c, xs, ys[..|ys| - 1]);
    }
  }

  lemma FoldSnoc<R, T>(step: (R, T) -> R, c: R, xs: seq<T>, y: T)
    ensures Fold(step, c, xs + [y]) == step(Fold(step, c, xs), y)
  {
    assert (xs + [y])[..|xs|] == xs;
  }

  lemma FoldCons<R, T>(step: (R, T) -> R, c: R, y: T, xs: seq<T>)
    ensures Fold(step, c, [y] + xs) == Fold(step, step(c, y), xs)
  {
    FoldConcat(step, c, [y], xs);
    assert [y][..0] == [];
    assert Fold(step, c, [y]) == step(Fold(step, c, []), y);
  }

  /** Steps that agree everywhere have the same runs. */
  lemma {:induction false} FoldEqual<R(!new), T(!new)>(f: (R, T) -> R, g: (R, T) -> R, c: R, xs: seq<T>)
    requires forall r: R, x: T :: f(r, x) == g(r, x)
    ensures Fold(f, c, xs) == Fold(g, c, xs)
  {
    if xs != [] {
      FoldEqual(f, g, c, xs[..|xs| - 1]);
    }
  }

  /** If no input ever merges two states, no run does. */
  lemma {:induction false} FoldInjective<R(!new), T(!new)>(step: (R, T) -> R, a: R, b: R, xs: seq<T>)
    requires forall r: R, s: R, x: T :: step(r, x) == step(s, x) ==> r == s
    requires Fold(step, a, xs) == Fold(step, b, xs)
    ensures a == b
  {
    if xs != [] {
      FoldInjective(step, a, b, xs[..|xs| - 1]);
    }
  }

  function Iterate<R>(f: R -> R, n: nat, x: R): (r: R)
  {
    if n == 0 then x else f(Iterate(f, n - 1, x))
  }

  lemma {:induction false} IterateEqual<R(!new)>(f: R -> R, g: R -> R, n: nat, x: R)
    requires forall r: R :: f(r) == g(r)
    ensures Iterate(f, n, x) == Iterate(g, n, x)
  {
    if n > 0 {
      IterateEqual(f, g, n - 1, x);
    }
  }

  lemma {:induction false} IterateInjective<R(!new)>(f: R -> R, n: nat, a: R, b: R)
    requires forall r: R, s: R :: f(r) == f(s) ==> r == s
    requires Iterate(f, n, a) == Iterate(f, n, b)
    ensures a == b
  {
    if n > 0 {
      IterateInjective(f, n - 1, a, b);
    }
  }

  /** A step that distributes over add keeps doing so when repeated. */
  lemma {:induction false} IterateLinear<R(!new)>(f: R -> R, add: (R, R) -> R, n: nat, a: R, b: R)
    requires forall r: R, s: R :: f(add(r, s)) == add(f(r), f(s))
    ensures Iterate(f, n, add(a, b)) == add(Iterate(f, n, a), Iterate(f, n, b))
  {
    if n > 0 {
      IterateLinear(f, add, n - 1, a, b);
    }
  }

  lemma {:induction false} IterateFront<R>(f: R -> R, n: nat, x: R)
    ensures Iterate(f, n + 1, x) == Iterate(f, n, f(x))
  {
    if n > 0 {
      IterateFront(f, n - 1, x);
    }
  }

  /** Adding a whole word of input first and then shifting it through is the same as
      feeding the word's bits one at a time. */
  lemma {:induction false} IterateIsFold<R(!new)>(
      shift: R -> R, add: (R, R) -> R, word: seq<bool> -> R, step: (R, bool) -> R, c: R, bits: seq<bool>)
    requires forall x: R :: add(x, word([])) == x
    requires forall x: R, s: seq<bool> ::
               s != [] && |s| <= |bits| ==> shift(add(x, word(s))) == add(step(x, s[0]), word(s[1..]))
    ensures Iterate(shift, |bits|, add(c, word(bits))) == Fold(step, c, bits)
    decreases |bits|
  {
    if bits == [] {
      assert bits == [];
    } else {
      IterateFront(shift, |bits| - 1, add(c, word(bits)));
      assert shift(add(c, word(bits))) == add(step(c, bits[0]), word(bits[1..]));
      IterateIsFold(shift, add, word, step, step(c, bits[0]), bits[1..]);
      FoldCons(step, c, bits[0], bits[1..]);
      assert [bits[0]] + bits[1..] == bits;
    }
  }
}
