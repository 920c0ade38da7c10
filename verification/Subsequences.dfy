/** Picking items of a sequence by increasing indices. */
module Subsequences {

  /** `at` lists indices below `n` in increasing order. */
  predicate Increasing(at: seq<nat>, n: nat) {
    && (forall i :: 0 <= i < |at| ==> at[i] < n)
    && (forall i, j :: 0 <= i < j < |at| ==> at[i] < at[j])
  }

  lemma GreatestIsLast(at: seq<nat>, n: nat, k: nat)
    requires Increasing(at, n + 1) && k < |at| && at[k] == n
    ensures k == |at| - 1
  {
    var last := at[|at| - 1];
    assert last <= n;
  }

  predicate Picks<T(==)>(xs: seq<T>, at: seq<nat>, picked: seq<T>) {
    Increasing(at, |xs|) && |at| == |picked| && forall i :: 0 <= i < |at| ==> picked[i] == xs[at[i]]
  }

  lemma PicksSnoc<T>(xs: seq<T>, at: seq<nat>, picked: seq<T>)
    requires xs != [] && Picks(xs[..|xs| - 1], at, picked)
    ensures Picks(xs, at, picked) && Picks(xs, at + [|xs| - 1], picked + [xs[|xs| - 1]])
  {
  }
}
