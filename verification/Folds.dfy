/** Running a step function over a sequence. */
module Folds {

  function Fold<S, E>(step: (S, E) -> S, s: S, es: seq<E>): S {
    if es == [] then s else step(Fold(step, s, es[..|es| - 1]), es[|es| - 1])
  }

  lemma {:induction false} FoldConcat<S, E>(step: (S, E) -> S, s: S, es: seq<E>, fs: seq<E>)
    ensures Fold(step, s, es + fs) == Fold(step, Fold(step, s, es), fs)
  {
    if fs == [] {
      assert es + fs == es;
    } else {
      var front := fs[..|fs| - 1];
      FoldConcat(step, s, es, front);
      assert (es + fs)[..|es + fs| - 1] == es + front;
    }
  }
}
