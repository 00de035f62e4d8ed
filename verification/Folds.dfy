/** Running a step function over a sequence from left to right. */
module Folds {

  function Fold<S, B>(f: (S, B) -> S, c: S, s: seq<B>): S {
    if s == [] then c else f(Fold(f, c, s[..|s| - 1]), s[|s| - 1])
  }

  lemma {:induction false} FoldConcat<S, B>(f: (S, B) -> S, c: S, s: seq<B>, t: seq<B>)
    ensures Fold(f, c, s + t) == Fold(f, Fold(f, c, s), t)
  {
    if t == [] {
      assert s + t == s;
    } else {
      var n := |t| - 1;
      FoldConcat(f, c, s, t[..n]);
      assert (s + t)[..|s| + n] == s + t[..n];
    }
  }

  ghost predicate Injective<S(!new), B(!new)>(f: (S, B) -> S) {
    forall c, d, b :: f(c, b) == f(d, b) ==> c == d
  }

  lemma {:induction false} FoldInjective<S(!new), B(!new)>(f: (S, B) -> S, c: S, d: S, s: seq<B>)
    requires Injective(f)
    requires Fold(f, c, s) == Fold(f, d, s)
    ensures c == d
  {
    if s == [] {
    } else {
      FoldInjective(f, c, d, s[..|s| - 1]);
    }
  }
}
