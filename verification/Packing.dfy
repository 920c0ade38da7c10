/**
 Greedy packing of items of given lengths into a budget, one separator between any two: an item that
 does not fit is skipped and the next one tried.
 */
module Packing {
  import opened Subsequences

  function Each<T, U>(xs: seq<T>, f: T -> U): (ys: seq<U>)
    ensures |ys| == |xs|
    ensures forall i :: 0 <= i < |xs| ==> ys[i] == f(xs[i])
  {
    seq(|xs|, i requires 0 <= i < |xs| => f(xs[i]))
  }

  /** The length taken by `used` and one more item of length `n`. */
  function Grown(used: nat, n: nat): nat {
    used + (if used > 0 then 1 else 0) + n
  }

  /** The length taken by all of them. */
  function Total(ls: seq<nat>): nat {
    if ls == [] then 0 else Grown(Total(ls[..|ls| - 1]), ls[|ls| - 1])
  }

  /** The length taken by the greedy choice. */
  function Used(ls: seq<nat>, budget: nat): (used: nat)
    ensures used <= budget
  {
    if ls == [] then 0
    else
      var used := Used(ls[..|ls| - 1], budget);
      if Grown(used, ls[|ls| - 1]) <= budget then Grown(used, ls[|ls| - 1]) else used
  }

  /** Item `k` fits after the greedy choice among those before it. */
  predicate Room(ls: seq<nat>, budget: nat, k: nat)
    requires k < |ls|
  {
    Grown(Used(ls[..k], budget), ls[k]) <= budget
  }

  /** The items with room, or those without, in order. */
  function Chosen<T>(xs: seq<T>, ls: seq<nat>, budget: nat, room: bool): seq<T>
    requires |xs| == |ls|
  {
    if xs == [] then []
    else
      var n := |xs| - 1;
      Chosen(xs[..n], ls[..n], budget, room) + if Room(ls, budget, n) == room then [xs[n]] else []
  }

  // ----- which items -----

  ghost predicate Those(ls: seq<nat>, budget: nat, at: seq<nat>, room: bool) {
    forall k :: 0 <= k < |ls| ==> (k in at <==> Room(ls, budget, k) == room)
  }

  lemma RoomFront(ls: seq<nat>, budget: nat, n: nat, k: nat)
    requires k < n <= |ls|
    ensures Room(ls[..n], budget, k) <==> Room(ls, budget, k)
  {
    assert ls[..n][..k] == ls[..k];
  }

  lemma ThoseSnoc(ls: seq<nat>, budget: nat, at: seq<nat>, room: bool)
    requires ls != [] && Those(ls[..|ls| - 1], budget, at, room) && Increasing(at, |ls| - 1)
    ensures
      var n := |ls| - 1;
      Those(ls, budget, if Room(ls, budget, n) == room then at + [n] else at, room)
  {
    var n := |ls| - 1;
    forall k | 0 <= k < n
      ensures k in at <==> Room(ls, budget, k) == room
    {
      RoomFront(ls, budget, n, k);
    }
  }

  /** The choice is, in order, exactly the items with room (or without). */
  lemma {:induction false} ChosenExact<T>(xs: seq<T>, ls: seq<nat>, budget: nat, room: bool) returns (at: seq<nat>)
    requires |xs| == |ls|
    ensures Picks(xs, at, Chosen(xs, ls, budget, room)) && Those(ls, budget, at, room)
  {
    if xs == [] {
      at := [];
    } else {
      var n := |xs| - 1;
      at := ChosenExact(xs[..n], ls[..n], budget, room);
      ThoseSnoc(ls, budget, at, room);
      if Room(ls, budget, n) == room {
        at := at + [n];
      }
    }
  }

  // ----- when everything fits -----

  lemma {:induction false} TotalGrows(ls: seq<nat>, n: nat)
    requires n <= |ls|
    ensures Total(ls[..n]) <= Total(ls)
  {
    if n == |ls| {
      assert ls[..n] == ls;
    } else {
      TotalGrows(ls[..|ls| - 1], n);
      assert ls[..|ls| - 1][..n] == ls[..n];
    }
  }

  lemma {:induction false} UsedIsTotal(ls: seq<nat>, budget: nat)
    requires Total(ls) <= budget
    ensures Used(ls, budget) == Total(ls)
  {
    if ls != [] {
      TotalGrows(ls, |ls| - 1);
      UsedIsTotal(ls[..|ls| - 1], budget);
    }
  }

  lemma {:induction false} RoomForAll(ls: seq<nat>, budget: nat)
    requires forall k :: 0 <= k < |ls| ==> Room(ls, budget, k)
    ensures Used(ls, budget) == Total(ls)
  {
    if ls != [] {
      var n := |ls| - 1;
      forall k | 0 <= k < n
        ensures Room(ls[..n], budget, k)
      {
        RoomFront(ls, budget, n, k);
      }
      RoomForAll(ls[..n], budget);
      assert Room(ls, budget, n);
    }
  }

  /** There is room for every item if and only if they all fit together. */
  lemma AllRoomIff(ls: seq<nat>, budget: nat)
    ensures (forall k :: 0 <= k < |ls| ==> Room(ls, budget, k)) <==> Total(ls) <= budget
  {
    if Total(ls) <= budget {
      forall k | 0 <= k < |ls|
        ensures Room(ls, budget, k)
      {
        TotalGrows(ls, k);
        UsedIsTotal(ls[..k], budget);
        TotalGrows(ls, k + 1);
        assert ls[..k + 1][..k] == ls[..k];
      }
    } else if forall k :: 0 <= k < |ls| ==> Room(ls, budget, k) {
      RoomForAll(ls, budget);
    }
  }

  lemma {:induction false} ChosenAll<T>(xs: seq<T>, ls: seq<nat>, budget: nat, room: bool)
    requires |xs| == |ls| && forall k :: 0 <= k < |ls| ==> Room(ls, budget, k)
    ensures Chosen(xs, ls, budget, room) == if room then xs else []
  {
    if xs != [] {
      var n := |xs| - 1;
      forall k | 0 <= k < n
        ensures Room(ls[..n], budget, k)
      {
        RoomFront(ls, budget, n, k);
      }
      ChosenAll(xs[..n], ls[..n], budget, room);
      assert xs == xs[..n] + [xs[n]];
      assert Room(ls, budget, n);
    }
  }

  lemma {:induction false} AtLeast(at: seq<nat>, n: nat, k: nat)
    requires Increasing(at, n) && k < |at|
    ensures at[k] >= k
  {
    if k > 0 {
      AtLeast(at, n, k - 1);
    }
  }

  lemma {:induction false} AtMost(at: seq<nat>, n: nat, k: nat)
    requires Increasing(at, n) && |at| == n && k < n
    ensures at[k] <= k
    decreases n - k
  {
    if k < n - 1 {
      AtMost(at, n, k + 1);
    }
  }

  /** An increasing list as long as its range holds all of it. */
  lemma Full(at: seq<nat>, n: nat, k: nat)
    requires Increasing(at, n) && |at| == n && k < n
    ensures k in at
  {
    AtLeast(at, n, k);
    AtMost(at, n, k);
  }

  /** Everything is chosen, and nothing left out, if and only if all items fit together. */
  lemma AllChosenIff<T>(xs: seq<T>, ls: seq<nat>, budget: nat)
    requires |xs| == |ls|
    ensures Chosen(xs, ls, budget, true) == xs <==> Total(ls) <= budget
    ensures Chosen(xs, ls, budget, false) == [] <==> Total(ls) <= budget
  {
    AllRoomIff(ls, budget);
    if Total(ls) <= budget {
      ChosenAll(xs, ls, budget, true);
      ChosenAll(xs, ls, budget, false);
    } else {
      var k: nat :| k < |ls| && !Room(ls, budget, k);
      var at := ChosenExact(xs, ls, budget, true);
      var out := ChosenExact(xs, ls, budget, false);
      assert k in out && k !in at;
      if |at| == |xs| {
        Full(at, |xs|, k);
      }
    }
  }

  // ----- after an item that does not fit -----

  /** The longest prefix that fits. */
  ghost predicate LongestFitting(ls: seq<nat>, budget: nat, n: nat) {
    n <= |ls| && Total(ls[..n]) <= budget && (n < |ls| ==> Total(ls[..n + 1]) > budget)
  }

  lemma {:induction false} LongestExists(ls: seq<nat>, budget: nat) returns (n: nat)
    ensures LongestFitting(ls, budget, n)
  {
    if Total(ls) <= budget {
      n := |ls|;
      assert ls[..n] == ls;
    } else {
      var front := ls[..|ls| - 1];
      n := LongestExists(front, budget);
      assert front[..n] == ls[..n];
      assert if n < |front| then front[..n + 1] == ls[..n + 1] else ls[..n + 1] == ls;
    }
  }

  /** No item from `n` to `m` fits behind the first `n`. */
  ghost predicate NoneFits(ls: seq<nat>, budget: nat, n: nat, m: nat)
    requires n <= m <= |ls|
  {
    forall k :: n <= k < m ==> Grown(Total(ls[..n]), ls[k]) > budget
  }

  lemma {:induction false} UsedStays(ls: seq<nat>, budget: nat, n: nat, m: nat)
    requires n <= m <= |ls| && Total(ls[..n]) <= budget && NoneFits(ls, budget, n, m)
    ensures Used(ls[..m], budget) == Total(ls[..n])
  {
    if n == m {
      UsedIsTotal(ls[..n], budget);
    } else {
      UsedStays(ls, budget, n, m - 1);
      assert ls[..m][..m - 1] == ls[..m - 1];
    }
  }

  lemma {:induction false} FirstThatFits(ls: seq<nat>, budget: nat, n: nat, m: nat) returns (k: nat)
    requires n <= m <= |ls| && !NoneFits(ls, budget, n, m)
    ensures n <= k < m && NoneFits(ls, budget, n, k) && Grown(Total(ls[..n]), ls[k]) <= budget
  {
    if NoneFits(ls, budget, n, m - 1) {
      k := m - 1;
    } else {
      k := FirstThatFits(ls, budget, n, m - 1);
    }
  }

  lemma PrefixHasRoom(ls: seq<nat>, budget: nat, n: nat, k: nat)
    requires k < n <= |ls| && Total(ls[..n]) <= budget
    ensures Room(ls, budget, k)
  {
    AllRoomIff(ls[..n], budget);
    RoomFront(ls, budget, n, k);
  }

  /** Equal items are equally long. */
  ghost predicate Sized<T>(xs: seq<T>, ls: seq<nat>) {
    |xs| == |ls| && forall i, j :: 0 <= i < |xs| && 0 <= j < |xs| && xs[i] == xs[j] ==> ls[i] == ls[j]
  }

  /** Indices below `n` come first in an increasing list that holds them all. */
  lemma {:induction false} StartsWithAll(at: seq<nat>, size: nat, n: nat, i: nat)
    requires Increasing(at, size) && (forall k :: 0 <= k < n ==> k in at) && i < n
    ensures i < |at| && at[i] == i
  {
    if i > 0 {
      StartsWithAll(at, size, n, i - 1);
    }
    assert i in at;
    var j :| 0 <= j < |at| && at[j] == i;
    AtLeast(at, size, j);
    if i < |at| {
      AtLeast(at, size, i);
    }
    assert i > 0 ==> at[i - 1] == i - 1;
  }

  lemma NoRoomAfter(ls: seq<nat>, budget: nat, n: nat, k: nat)
    requires LongestFitting(ls, budget, n) && NoneFits(ls, budget, n, |ls|) && n <= k < |ls|
    ensures !Room(ls, budget, k)
  {
    UsedStays(ls, budget, n, k);
  }

  lemma ThenComes(at: seq<nat>, size: nat, n: nat, k: nat)
    requires Increasing(at, size) && n < k && k in at
    requires (forall j :: 0 <= j < n ==> j in at) && (forall j :: n <= j < k ==> j !in at)
    ensures n < |at| && at[n] == k
  {
    forall i | 0 <= i < n
      ensures i < |at| && at[i] == i
    {
      StartsWithAll(at, size, n, i);
    }
    var j :| 0 <= j < |at| && at[j] == k;
    AtLeast(at, size, n);
    assert at[n] in at;
  }

  /** The first item behind the prefix that has room is the next one chosen. */
  lemma NextChosen(ls: seq<nat>, budget: nat, n: nat, k: nat, at: seq<nat>)
    requires n < k < |ls| && Total(ls[..n]) <= budget && NoneFits(ls, budget, n, k)
    requires Grown(Total(ls[..n]), ls[k]) <= budget
    requires Increasing(at, |ls|) && Those(ls, budget, at, true)
    ensures n < |at| && at[n] == k
  {
    forall j | 0 <= j < n
      ensures j in at
    {
      PrefixHasRoom(ls, budget, n, j);
    }
    forall j | n <= j < k
      ensures j !in at
    {
      UsedStays(ls, budget, n, j);
    }
    UsedStays(ls, budget, n, k);
    assert Room(ls, budget, k) && k in at;
    ThenComes(at, |ls|, n, k);
  }

  lemma BelowPrefix(ls: seq<nat>, budget: nat, n: nat, at: seq<nat>, i: nat)
    requires n <= |ls| && Total(ls[..n]) <= budget && Increasing(at, |ls|) && Those(ls, budget, at, true)
    requires i < |at| && at[i] < n
    ensures at[i] == i
  {
    forall j | 0 <= j < n
      ensures j in at
    {
      PrefixHasRoom(ls, budget, n, j);
    }
    AtLeast(at, |ls|, i);
    StartsWithAll(at, |ls|, n, i);
  }

  lemma AtMostAll(at: seq<nat>, n: nat)
    requires Increasing(at, n)
    ensures |at| <= n
  {
    if at != [] {
      AtLeast(at, n, |at| - 1);
    }
  }

  /**
   The choice is a prefix of the items if and only if no item after the longest prefix that fits would
   fit behind that prefix.
   */
  lemma PrefixChosenIff<T>(xs: seq<T>, ls: seq<nat>, budget: nat, n: nat)
    requires Sized(xs, ls) && LongestFitting(ls, budget, n)
    ensures Chosen(xs, ls, budget, true) <= xs <==> NoneFits(ls, budget, n, |ls|)
  {
    var picked := Chosen(xs, ls, budget, true);
    var at := ChosenExact(xs, ls, budget, true);
    if NoneFits(ls, budget, n, |ls|) {
      forall i | 0 <= i < |at|
        ensures at[i] == i
      {
        if at[i] >= n {
          NoRoomAfter(ls, budget, n, at[i]);
        }
        BelowPrefix(ls, budget, n, at, i);
      }
      AtMostAll(at, |xs|);
    } else {
      var k := FirstThatFits(ls, budget, n, |ls|);
      assert ls[..n + 1][..n] == ls[..n];
      assert k > n;
      NextChosen(ls, budget, n, k, at);
    }
  }
}
