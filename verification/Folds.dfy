/** Running a state through a sequence. */
module Folds {

  ghost function Fold<S, T>(step: (S, T) -> S, s: S, xs: seq<T>): S
    decreases |xs|
  {
    if xs == [] then s else step(Fold(step, s, xs[..|xs| - 1]), xs[|xs| - 1])
  }

  lemma {:induction false} FoldSnoc<S, T>(step: (S, T) -> S, s: S, xs: seq<T>, x: T)
    ensures Fold(step, s, xs + [x]) == step(Fold(step, s, xs), x)
  {
    assert (xs + [x])[..|xs|] == xs;
  }

  /** However the sequence is split, the result is the same. */
  lemma {:induction false} FoldAppend<S, T>(step: (S, T) -> S, s: S, xs: seq<T>, ys: seq<T>)
    ensures Fold(step, s, xs + ys) == Fold(step, Fold(step, s, xs), ys)
    decreases |ys|
  {
    if ys == [] {
      assert xs + ys == xs;
    } else {
      var u, y := ys[..|ys| - 1], ys[|ys| - 1];
      assert ys == u + [y] && xs + ys == (xs + u) + [y];
      FoldAppend(step, s, xs, u);
      FoldSnoc(step, s, xs + u, y);
      FoldSnoc(step, Fold(step, s, xs), u, y);
    }
  }
}
