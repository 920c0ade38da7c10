/**
 The bounded-parallel work loop every port and endpoint scan runs on, in two forms: the loop itself,
 and the protocol that says which event may follow which. The order of completion is open; when the
 cancellation token is set is an input. An item stands for its index; `outcomes[i]` is what its probe
 yields.
 */
module BatchScan {
  import opened Wrappers
  import opened Sets
  import opened Subsequences

  /** A look at the token before starting an item, a start, a completion, a look at the token after one. */
  datatype ScanEvent = Looked(cancelled: bool) | Started(index: nat) | Finished(index: nat) | Checked(cancelled: bool)

  type Log = seq<ScanEvent>

  function Last(log: Log): Option<ScanEvent> {
    if log == [] then None else Some(log[|log| - 1])
  }

  /** The indices started, in order. */
  function Starts(log: Log): seq<nat> {
    if log == [] then []
    else
      var last := log[|log| - 1];
      Starts(log[..|log| - 1]) + if last.Started? then [last.index] else []
  }

  /** The indices finished, in order of completion. */
  function Finishes(log: Log): seq<nat> {
    if log == [] then []
    else
      var last := log[|log| - 1];
      Finishes(log[..|log| - 1]) + if last.Finished? then [last.index] else []
  }

  /** The finished indices whose result was taken: the token was found unset right after. */
  function Taken(log: Log): seq<nat> {
    if log == [] then []
    else
      var front := log[..|log| - 1];
      Taken(front) + if log[|log| - 1] == Checked(false) && Last(front).Some? && Last(front).value.Finished?
                     then [Last(front).value.index] else []
  }

  /** How often the token was looked at. */
  function Reads(log: Log): nat {
    if log == [] then 0
    else Reads(log[..|log| - 1]) + if log[|log| - 1].Looked? || log[|log| - 1].Checked? then 1 else 0
  }

  function InFlight(log: Log): int {
    |Starts(log)| - |Finishes(log)|
  }

  // ----- the protocol -----

  /** The token looks as set from the given look on, or never. */
  predicate Set(cancelAt: Option<nat>, read: nat) {
    cancelAt.Some? && cancelAt.value <= read
  }

  /** What a scan is given: how many items, how many at once, and when the token is set. */
  datatype Job = Job(size: nat, bound: nat, cancelAt: Option<nat>)

  /** About to consider starting another item. */
  predicate Filling(log: Log) {
    log == [] || log[|log| - 1].Started? || log[|log| - 1] == Checked(false)
  }

  /** Done starting items for now, and so waiting for one to complete. */
  predicate Waiting(job: Job, log: Log) {
    || (Filling(log) && InFlight(log) >= job.bound)
    || Last(log) == Some(Looked(true))
    || (Last(log) == Some(Looked(false)) && |Starts(log)| >= job.size)
  }

  predicate MayFollow(job: Job, log: Log, e: ScanEvent) {
    match e
    case Looked(c) => Filling(log) && InFlight(log) < job.bound && c == Set(job.cancelAt, Reads(log))
    case Started(i) => Last(log) == Some(Looked(false)) && i == |Starts(log)| && i < job.size
    case Finished(i) => Waiting(job, log) && i in Starts(log) && i !in Finishes(log)
    case Checked(c) => Last(log).Some? && Last(log).value.Finished? && c == Set(job.cancelAt, Reads(log))
  }

  ghost predicate IsRun(job: Job, log: Log) {
    forall k :: 0 <= k < |log| ==> MayFollow(job, log[..k], log[k])
  }

  /** The scan is over: cancelled after a completion, or waiting with nothing in flight. */
  predicate Ended(job: Job, log: Log) {
    Last(log) == Some(Checked(true)) || (Waiting(job, log) && InFlight(log) == 0)
  }

  lemma RunSnoc(job: Job, log: Log, e: ScanEvent)
    requires IsRun(job, log) && MayFollow(job, log, e)
    ensures IsRun(job, log + [e])
  {
    var all := log + [e];
    forall k | 0 <= k < |all|
      ensures MayFollow(job, all[..k], all[k])
    {
      assert all[..k] == log[..k];
      assert log[..|log|] == log;
    }
  }

  lemma RunFront(job: Job, log: Log, n: nat)
    requires IsRun(job, log) && n <= |log|
    ensures IsRun(job, log[..n])
  {
    forall k | 0 <= k < n
      ensures MayFollow(job, log[..n][..k], log[..n][k])
    {
      assert log[..n][..k] == log[..k];
    }
  }

  lemma RunLast(job: Job, log: Log)
    requires IsRun(job, log) && log != []
    ensures IsRun(job, log[..|log| - 1]) && MayFollow(job, log[..|log| - 1], log[|log| - 1])
  {
    RunFront(job, log, |log| - 1);
  }

  // ----- what every run keeps -----

  function Upto(n: nat): seq<nat> {
    seq(n, i => i)
  }

  predicate Below(s: seq<nat>, n: nat) {
    forall k :: 0 <= k < |s| ==> s[k] < n
  }

  ghost predicate Distinct(s: seq<nat>) {
    forall i, j :: 0 <= i < j < |s| ==> s[i] != s[j]
  }

  ghost predicate Inv(job: Job, log: Log) {
    && Starts(log) == Upto(|Starts(log)|) && |Starts(log)| <= job.size
    && Distinct(Finishes(log)) && Below(Finishes(log), |Starts(log)|)
    && 0 <= InFlight(log) <= job.bound
    && (Last(log) == Some(Looked(false)) ==> InFlight(log) < job.bound)
    && (Last(log).Some? && Last(log).value.Finished? ==> InFlight(log) < job.bound)
    && (Last(log) == Some(Checked(false)) ==> InFlight(log) < job.bound)
  }

  function Elements(s: seq<nat>): set<nat> {
    set i | i in s
  }

  lemma {:induction false} ElementsCard(s: seq<nat>)
    ensures |Elements(s)| <= |s| && (Distinct(s) ==> |Elements(s)| == |s|)
  {
    if s == [] {
      assert Elements(s) == {};
    } else {
      var front, last := s[..|s| - 1], s[|s| - 1];
      ElementsCard(front);
      assert s == front + [last];
      assert Elements(s) == Elements(front) + {last};
    }
  }

  /** Distinct numbers below `n` are at most `n`, and all of them if they are `n`. */
  lemma Pigeonhole(s: seq<nat>, n: nat)
    requires Distinct(s) && Below(s, n)
    ensures |s| <= n
    ensures |s| == n ==> forall i :: 0 <= i < n ==> i in s
  {
    ElementsCard(s);
    assert Elements(s) <= Between(0, n);
    SubsetSize(Elements(s), Between(0, n));
    if |s| == n {
      forall i | 0 <= i < n
        ensures i in s
      {
        assert i in Between(0, n);
      }
    }
  }

  lemma FinishKeepsDistinct(s: seq<nat>, i: nat, n: nat)
    requires Distinct(s) && Below(s, n) && i < n && i !in s
    ensures Distinct(s + [i]) && Below(s + [i], n) && |s| < n
  {
    Pigeonhole(s + [i], n);
  }

  lemma StepKeepsInv(job: Job, log: Log, e: ScanEvent)
    requires Inv(job, log) && MayFollow(job, log, e)
    ensures Inv(job, log + [e])
  {
    assert (log + [e])[|log|] == e;
    match e {
      case Started(i) =>
        assert Upto(i + 1) == Upto(i) + [i];
      case Finished(i) =>
        assert i < |Starts(log)|;
        FinishKeepsDistinct(Finishes(log), i, |Starts(log)|);
      case _ =>
    }
  }

  lemma {:induction false} RunInv(job: Job, log: Log)
    requires IsRun(job, log)
    ensures Inv(job, log)
  {
    if log == [] {
      assert Upto(0) == [];
    } else {
      var front, last := log[..|log| - 1], log[|log| - 1];
      RunLast(job, log);
      RunInv(job, front);
      StepKeepsInv(job, front, last);
      assert log == front + [last];
    }
  }

  /** At no moment are more than `bound` items in flight. */
  ghost predicate Bounded(log: Log, bound: nat) {
    forall k :: 0 <= k <= |log| ==> 0 <= InFlight(log[..k]) <= bound
  }

  lemma RunBounded(job: Job, log: Log)
    requires IsRun(job, log)
    ensures Bounded(log, job.bound)
  {
    forall k | 0 <= k <= |log|
      ensures 0 <= InFlight(log[..k]) <= job.bound
    {
      RunFront(job, log, k);
      RunInv(job, log[..k]);
    }
  }

  lemma FirstEvent(job: Job, log: Log)
    requires IsRun(job, log) && log != []
    ensures MayFollow(job, [], log[0])
  {
  }

  lemma ZeroScansNothing(job: Job, log: Log)
    requires IsRun(job, log) && job.bound == 0
    ensures log == []
  {
    if log != [] {
      FirstEvent(job, log);
    }
  }

  // ----- progress -----

  lemma Unfinished(n: nat, finished: seq<nat>) returns (i: nat)
    requires |finished| < n
    ensures i < n && i !in finished
  {
    ElementsCard(finished);
    if Between(0, n) <= Elements(finished) {
      SubsetSize(Between(0, n), Elements(finished));
    }
    i :| i in Between(0, n) && i !in Elements(finished);
  }

  lemma NextEvent(job: Job, log: Log) returns (e: ScanEvent)
    requires Inv(job, log) && !Ended(job, log)
    ensures MayFollow(job, log, e)
  {
    if Waiting(job, log) {
      var i := Unfinished(|Starts(log)|, Finishes(log));
      assert Starts(log)[i] == i;
      e := Finished(i);
    } else if Filling(log) {
      e := Looked(Set(job.cancelAt, Reads(log)));
    } else if Last(log) == Some(Looked(false)) {
      e := Started(|Starts(log)|);
    } else {
      e := Checked(Set(job.cancelAt, Reads(log)));
    }
  }

  /** A run that has not ended can go on, and one that has cannot. */
  lemma EndedIffStuck(job: Job, log: Log)
    requires IsRun(job, log)
    ensures Ended(job, log) <==> forall e :: !MayFollow(job, log, e)
  {
    RunInv(job, log);
    if Ended(job, log) {
      forall e
        ensures !MayFollow(job, log, e)
      {
        if e.Finished? && MayFollow(job, log, e) {
          FinishKeepsDistinct(Finishes(log), e.index, |Starts(log)|);
        }
      }
    } else {
      var e := NextEvent(job, log);
    }
  }

  // ----- cancellation -----

  /** The run has seen the token set. */
  ghost predicate Cancelled(log: Log) {
    exists k :: 0 <= k < |log| && (log[k] == Looked(true) || log[k] == Checked(true))
  }

  lemma {:induction false} ReadsGrow(log: Log, k: nat)
    requires k < |log|
    ensures Reads(log[..k + 1]) <= Reads(log)
  {
    if k + 1 == |log| {
      assert log[..k + 1] == log;
    } else {
      ReadsGrow(log[..|log| - 1], k);
      assert log[..|log| - 1][..k + 1] == log[..k + 1];
    }
  }

  lemma SetWhenSeen(job: Job, log: Log, k: nat)
    requires IsRun(job, log) && k < |log| && (log[k] == Looked(true) || log[k] == Checked(true))
    ensures Set(job.cancelAt, Reads(log[..k])) && Reads(log[..k + 1]) == Reads(log[..k]) + 1
  {
    assert MayFollow(job, log[..k], log[k]);
    assert log[..k + 1][..k] == log[..k];
  }

  /** The token is seen set only after it was set. */
  lemma CancelledWasSet(job: Job, log: Log)
    requires IsRun(job, log) && Cancelled(log)
    ensures job.cancelAt.Some? && job.cancelAt.value < Reads(log)
  {
    var k :| 0 <= k < |log| && (log[k] == Looked(true) || log[k] == Checked(true));
    SetWhenSeen(job, log, k);
    ReadsGrow(log, k);
  }

  /** No item starts once the token is set: the look before it was made earlier. */
  lemma StartsBeforeSet(job: Job, log: Log, k: nat)
    requires IsRun(job, log) && k < |log| && log[k].Started? && job.cancelAt.Some?
    ensures Reads(log[..k]) <= job.cancelAt.value
  {
    assert MayFollow(job, log[..k], log[k]);
    assert MayFollow(job, log[..k - 1], log[k - 1]);
    assert log[..k][..k - 1] == log[..k - 1] && log[..k][k - 1] == log[k - 1];
  }

  /** Nor is a result taken once it is set. */
  lemma TakesBeforeSet(job: Job, log: Log, k: nat)
    requires IsRun(job, log) && k < |log| && log[k] == Checked(false) && job.cancelAt.Some?
    ensures Reads(log[..k]) < job.cancelAt.value
  {
    assert MayFollow(job, log[..k], log[k]);
  }

  lemma FollowsAt(job: Job, log: Log, k: nat)
    requires IsRun(job, log) && k + 1 < |log|
    ensures MayFollow(job, log[..k + 1], log[k + 1]) && Last(log[..k + 1]) == Some(log[k])
    ensures Reads(log[..k + 1]) == Reads(log[..k]) + if log[k].Looked? || log[k].Checked? then 1 else 0
  {
    assert log[..k + 1] == log[..k] + [log[k]];
  }

  lemma CheckedTrueIsLast(job: Job, log: Log, k: nat)
    requires IsRun(job, log) && k < |log| && log[k] == Checked(true)
    ensures |log| == k + 1
  {
    if k + 1 < |log| {
      FollowsAt(job, log, k);
    }
  }

  /** After a set token is seen on a look, only a completion can follow, and then the check that ends the scan. */
  lemma AfterLookedTrue(job: Job, log: Log, k: nat)
    requires IsRun(job, log) && k < |log| && log[k] == Looked(true)
    ensures k + 1 < |log| ==> log[k + 1].Finished?
    ensures k + 2 < |log| ==> log[k + 2] == Checked(true)
  {
    assert MayFollow(job, log[..k], log[k]);
    if k + 1 < |log| {
      FollowsAt(job, log, k);
    }
    if k + 2 < |log| {
      FollowsAt(job, log, k + 1);
    }
  }

  /** Once the token is seen set nothing starts: at most one more item completes and the scan is over. */
  lemma NothingStartsOnceCancelled(job: Job, log: Log, k: nat)
    requires IsRun(job, log) && k < |log|
    requires log[k] == Looked(true) || log[k] == Checked(true)
    ensures |log| <= k + 3 && forall j :: k < j < |log| ==> !log[j].Started?
    ensures log[k] == Checked(true) ==> |log| == k + 1
  {
    if log[k] == Checked(true) {
      CheckedTrueIsLast(job, log, k);
    } else {
      AfterLookedTrue(job, log, k);
      if k + 2 < |log| {
        CheckedTrueIsLast(job, log, k + 2);
      }
    }
  }

  // ----- results -----

  function OutputOf<O>(outcome: Option<O>): seq<O> {
    match outcome case Some(o) => [o] case None => []
  }

  /** The `Some` results of the given items, in the given order. */
  function Outputs<O>(outcomes: seq<Option<O>>, order: seq<nat>): seq<O>
    requires Below(order, |outcomes|)
  {
    if order == [] then []
    else
      var last := order[|order| - 1];
      Outputs(outcomes, order[..|order| - 1]) + OutputOf(outcomes[last])
  }

  /** Every finished item is taken, but for one just finished or finished under a set token. */
  lemma {:induction false} TakenExact(job: Job, log: Log)
    requires IsRun(job, log)
    ensures Taken(log) <= Finishes(log)
    ensures (Last(log).Some? && Last(log).value.Finished?) || Last(log) == Some(Checked(true)) ==>
              |Finishes(log)| == |Taken(log)| + 1
    ensures !((Last(log).Some? && Last(log).value.Finished?) || Last(log) == Some(Checked(true))) ==>
              Finishes(log) == Taken(log)
    ensures Last(log).Some? && Last(log).value.Finished? ==> Finishes(log) == Taken(log) + [Last(log).value.index]
  {
    if log != [] {
      RunLast(job, log);
      TakenExact(job, log[..|log| - 1]);
    }
  }

  /** A scan whose token is not seen set takes the result of every item. */
  lemma CompleteUnlessCancelled(job: Job, log: Log)
    requires IsRun(job, log) && Ended(job, log) && job.bound > 0 && !Cancelled(log)
    ensures Starts(log) == Upto(job.size) && Taken(log) == Finishes(log)
    ensures Distinct(Taken(log)) && Below(Taken(log), job.size) && forall i :: 0 <= i < job.size ==> i in Taken(log)
  {
    RunInv(job, log);
    TakenExact(job, log);
    assert Last(log) != Some(Looked(true)) && Last(log) != Some(Checked(true));
    Pigeonhole(Finishes(log), |Starts(log)|);
  }

  lemma Unsnoc(order: seq<nat>, n: nat)
    requires order != [] && Distinct(order) && Below(order, n)
    ensures
      var front, last := order[..|order| - 1], order[|order| - 1];
      Distinct(front) && Below(front, n) && last !in Elements(front) && Elements(order) == Elements(front) + {last}
  {
  }

  // ----- the results, item by item -----

  /**
   The results are the values of the taken items that yielded one, in the order they were taken: `at`
   lists the places in `taken` whose item yielded a value.
   */
  ghost predicate Delivers<O>(outcomes: seq<Option<O>>, taken: seq<nat>, at: seq<nat>, results: seq<O>) {
    && Below(taken, |outcomes|) && Increasing(at, |taken|) && |at| == |results|
    && (forall p :: 0 <= p < |taken| ==> (p in at <==> outcomes[taken[p]].Some?))
    && (forall j :: 0 <= j < |results| ==> outcomes[taken[at[j]]] == Some(results[j]))
  }

  lemma DeliversMore<O>(outcomes: seq<Option<O>>, taken: seq<nat>, at: seq<nat>, results: seq<O>, i: nat)
    requires Delivers(outcomes, taken, at, results) && i < |outcomes|
    ensures outcomes[i].None? ==> Delivers(outcomes, taken + [i], at, results)
    ensures outcomes[i].Some? ==> Delivers(outcomes, taken + [i], at + [|taken|], results + [outcomes[i].value])
  {
    assert forall p :: 0 <= p < |taken| ==> (taken + [i])[p] == taken[p];
  }

  lemma {:induction false} OutputsDeliver<O>(outcomes: seq<Option<O>>, taken: seq<nat>) returns (at: seq<nat>)
    requires Below(taken, |outcomes|)
    ensures Delivers(outcomes, taken, at, Outputs(outcomes, taken))
  {
    if taken == [] {
      at := [];
    } else {
      var front, i := taken[..|taken| - 1], taken[|taken| - 1];
      at := OutputsDeliver(outcomes, front);
      DeliversMore(outcomes, front, at, Outputs(outcomes, front), i);
      assert taken == front + [i];
      if outcomes[i].Some? {
        at := at + [|front|];
      }
    }
  }

  /** The items that yield `v`, among those of the list. */
  function Yielding<O(==)>(outcomes: seq<Option<O>>, order: seq<nat>, v: O): set<nat> {
    set i | i in order && i < |outcomes| && outcomes[i] == Some(v)
  }

  lemma YieldingMore<O>(outcomes: seq<Option<O>>, front: seq<nat>, last: nat, v: O)
    requires last !in front && last < |outcomes|
    ensures |Yielding(outcomes, front + [last], v)| ==
            |Yielding(outcomes, front, v)| + if outcomes[last] == Some(v) then 1 else 0
  {
    var before, after := Yielding(outcomes, front, v), Yielding(outcomes, front + [last], v);
    if outcomes[last] == Some(v) {
      assert after == before + {last};
    } else {
      assert after == before;
    }
  }

  lemma {:induction false} CountOutputs<O>(outcomes: seq<Option<O>>, order: seq<nat>, v: O)
    requires Distinct(order) && Below(order, |outcomes|)
    ensures multiset(Outputs(outcomes, order))[v] == |Yielding(outcomes, order, v)|
  {
    if order == [] {
      assert Yielding(outcomes, order, v) == {};
    } else {
      var front, last := order[..|order| - 1], order[|order| - 1];
      Unsnoc(order, |outcomes|);
      CountOutputs(outcomes, front, v);
      YieldingMore(outcomes, front, last, v);
      assert order == front + [last];
    }
  }

  /** With every item taken once, each value is there as often as items yield it. */
  lemma CompleteCount<O>(outcomes: seq<Option<O>>, order: seq<nat>, v: O)
    requires Distinct(order) && Below(order, |outcomes|) && forall i :: 0 <= i < |outcomes| ==> i in order
    ensures multiset(Outputs(outcomes, order))[v] == |set i | 0 <= i < |outcomes| && outcomes[i] == Some(v)|
  {
    CountOutputs(outcomes, order, v);
    assert Yielding(outcomes, order, v) == set i | 0 <= i < |outcomes| && outcomes[i] == Some(v);
  }

  lemma DeliversFront<O>(outcomes: seq<Option<O>>, taken: seq<nat>, at: seq<nat>, results: seq<O>)
    requires Delivers(outcomes, taken, at, results) && taken != []
    ensures
      var n := |taken| - 1;
      if outcomes[taken[n]].Some?
      then at != [] && outcomes[taken[n]] == Some(results[|at| - 1])
           && Delivers(outcomes, taken[..n], at[..|at| - 1], results[..|at| - 1])
      else Delivers(outcomes, taken[..n], at, results)
  {
    var n := |taken| - 1;
    if outcomes[taken[n]].Some? {
      assert n in at;
      var k :| 0 <= k < |at| && at[k] == n;
      GreatestIsLast(at, n, k);
    }
  }

  /** The places and values determine the results. */
  lemma {:induction false} DeliversIsOutputs<O>(
      outcomes: seq<Option<O>>, taken: seq<nat>, at: seq<nat>, results: seq<O>)
    requires Delivers(outcomes, taken, at, results)
    ensures results == Outputs(outcomes, taken)
  {
    if taken == [] {
      assert at == [];
    } else {
      var n := |taken| - 1;
      DeliversFront(outcomes, taken, at, results);
      if outcomes[taken[n]].Some? {
        DeliversIsOutputs(outcomes, taken[..n], at[..|at| - 1], results[..|at| - 1]);
        assert results == results[..|at| - 1] + [results[|at| - 1]];
      } else {
        DeliversIsOutputs(outcomes, taken[..n], at, results);
      }
    }
  }

  ghost predicate TakesAll(order: seq<nat>, n: nat) {
    Distinct(order) && Below(order, n) && forall i :: 0 <= i < n ==> i in order
  }

  /** Two complete scans of the same items give the same results as multisets, whatever their orders of completion. */
  lemma CompletionOrderIrrelevant<O>(outcomes: seq<Option<O>>, a: seq<nat>, b: seq<nat>,
                                     atA: seq<nat>, atB: seq<nat>, fromA: seq<O>, fromB: seq<O>)
    requires TakesAll(a, |outcomes|) && TakesAll(b, |outcomes|)
    requires Delivers(outcomes, a, atA, fromA) && Delivers(outcomes, b, atB, fromB)
    ensures multiset(fromA) == multiset(fromB)
  {
    DeliversIsOutputs(outcomes, a, atA, fromA);
    DeliversIsOutputs(outcomes, b, atB, fromB);
    forall v
      ensures multiset(fromA)[v] == multiset(fromB)[v]
    {
      CompleteCount(outcomes, a, v);
      CompleteCount(outcomes, b, v);
    }
  }

  // ----- the loop -----

  lemma OutputsSnoc<O>(outcomes: seq<Option<O>>, order: seq<nat>, i: nat)
    requires Below(order, |outcomes|) && i < |outcomes|
    ensures Below(order + [i], |outcomes|)
    ensures Outputs(outcomes, order + [i]) == Outputs(outcomes, order) + OutputOf(outcomes[i])
  {
  }

  /** What the loop's variables say about its log. */
  ghost predicate Tracks(job: Job, log: Log, next: nat, inFlight: set<nat>, looks: nat) {
    && IsRun(job, log)
    && next == |Starts(log)| && looks == Reads(log) && |inFlight| == InFlight(log)
    && (forall i: nat :: i in inFlight <==> i < next && i !in Finishes(log))
  }

  lemma TracksStart(job: Job, log: Log, next: nat, inFlight: set<nat>, looks: nat)
    requires Tracks(job, log, next, inFlight, looks) && MayFollow(job, log, Started(next))
    ensures Tracks(job, log + [Started(next)], next + 1, inFlight + {next}, looks)
  {
    RunInv(job, log);
    RunSnoc(job, log, Started(next));
    assert next !in Finishes(log);
  }

  lemma TracksRead(job: Job, log: Log, next: nat, inFlight: set<nat>, looks: nat, e: ScanEvent)
    requires Tracks(job, log, next, inFlight, looks) && MayFollow(job, log, e) && (e.Looked? || e.Checked?)
    ensures Tracks(job, log + [e], next, inFlight, looks + 1)
  {
    RunSnoc(job, log, e);
  }

  lemma TracksFinish(job: Job, log: Log, next: nat, inFlight: set<nat>, looks: nat, i: nat)
    requires Tracks(job, log, next, inFlight, looks) && Waiting(job, log) && i in inFlight
    ensures MayFollow(job, log, Finished(i))
    ensures Tracks(job, log + [Finished(i)], next, inFlight - {i}, looks)
  {
    RunInv(job, log);
    assert Starts(log)[i] == i;
    RunSnoc(job, log, Finished(i));
  }

  lemma TracksEmpty(job: Job)
    ensures Tracks(job, [], 0, {}, 0)
  {
  }

  /** A look at the token either ends the filling or allows a start. */
  lemma LookStep(job: Job, log: Log, next: nat, inFlight: set<nat>, looks: nat)
    requires Tracks(job, log, next, inFlight, looks) && Filling(log) && |inFlight| < job.bound
    ensures
      var e := Looked(Set(job.cancelAt, looks));
      && Tracks(job, log + [e], next, inFlight, looks + 1)
      && Taken(log + [e]) == Taken(log) && Finishes(log + [e]) == Finishes(log)
      && (if e.cancelled || next >= job.size then Waiting(job, log + [e]) else MayFollow(job, log + [e], Started(next)))
  {
    var e := Looked(Set(job.cancelAt, looks));
    TracksRead(job, log, next, inFlight, looks, e);
  }

  lemma StartStep(job: Job, log: Log, next: nat, inFlight: set<nat>, looks: nat)
    requires Tracks(job, log, next, inFlight, looks) && MayFollow(job, log, Started(next))
    ensures Tracks(job, log + [Started(next)], next + 1, inFlight + {next}, looks) && Filling(log + [Started(next)])
    ensures Taken(log + [Started(next)]) == Taken(log) && Finishes(log + [Started(next)]) == Finishes(log)
    ensures next !in inFlight
  {
    TracksStart(job, log, next, inFlight, looks);
  }

  /** Start items until the batch is full, the input is used up or the token is seen set. */
  method Fill(job: Job, next0: nat, inFlight0: set<nat>, looks0: nat, log0: Log)
    returns (next: nat, inFlight: set<nat>, looks: nat, log: Log)
    requires Tracks(job, log0, next0, inFlight0, looks0) && Filling(log0)
    ensures Tracks(job, log, next, inFlight, looks) && Waiting(job, log)
    ensures Taken(log) == Taken(log0) && Finishes(log) == Finishes(log0)
  {
    next, inFlight, looks, log := next0, inFlight0, looks0, log0;
    while |inFlight| < job.bound
      invariant Tracks(job, log, next, inFlight, looks) && Filling(log)
      invariant Taken(log) == Taken(log0) && Finishes(log) == Finishes(log0)
      decreases job.bound - |inFlight|
    {
      var cancelled := Set(job.cancelAt, looks);
      LookStep(job, log, next, inFlight, looks);
      looks, log := looks + 1, log + [Looked(cancelled)];
      if cancelled || next >= job.size {
        return;
      }
      StartStep(job, log, next, inFlight, looks);
      inFlight, log, next := inFlight + {next}, log + [Started(next)], next + 1;
    }
  }

  lemma FinishStep(job: Job, log: Log, next: nat, inFlight: set<nat>, looks: nat, i: nat)
    requires Tracks(job, log, next, inFlight, looks) && Waiting(job, log) && i in inFlight
    ensures Tracks(job, log + [Finished(i)], next, inFlight - {i}, looks) && i < job.size
    ensures Taken(log + [Finished(i)]) == Taken(log) && Finishes(log + [Finished(i)]) == Finishes(log) + [i]
    ensures Last(log + [Finished(i)]) == Some(Finished(i))
  {
    RunInv(job, log);
    TracksFinish(job, log, next, inFlight, looks, i);
    assert (log + [Finished(i)])[..|log|] == log;
  }

  lemma CheckStep(job: Job, log: Log, next: nat, inFlight: set<nat>, looks: nat, i: nat)
    requires Tracks(job, log, next, inFlight, looks) && Last(log) == Some(Finished(i))
    ensures
      var e := Checked(Set(job.cancelAt, looks));
      && Tracks(job, log + [e], next, inFlight, looks + 1)
      && Taken(log + [e]) == (if e.cancelled then Taken(log) else Taken(log) + [i])
      && Finishes(log + [e]) == Finishes(log)
  {
    var e := Checked(Set(job.cancelAt, looks));
    TracksRead(job, log, next, inFlight, looks, e);
    assert (log + [e])[..|log|] == log;
  }

  /** Any one of the items in flight completes, and the token is looked at. */
  method NextCompleted(job: Job, next: nat, inFlight0: set<nat>, looks0: nat, log0: Log)
    returns (i: nat, cancelled: bool, inFlight: set<nat>, looks: nat, log: Log)
    requires Tracks(job, log0, next, inFlight0, looks0) && Waiting(job, log0) && inFlight0 != {}
    ensures Tracks(job, log, next, inFlight, looks) && i < job.size
    ensures log == log0 + [Finished(i)] + [Checked(cancelled)]
    ensures Taken(log) == if cancelled then Taken(log0) else Taken(log0) + [i]
    ensures Finishes(log) == Finishes(log0) + [i]
  {
    i :| i in inFlight0;
    FinishStep(job, log0, next, inFlight0, looks0, i);
    inFlight, log := inFlight0 - {i}, log0 + [Finished(i)];
    cancelled := Set(job.cancelAt, looks0);
    CheckStep(job, log, next, inFlight, looks0, i);
    looks, log := looks0 + 1, log + [Checked(cancelled)];
  }

  lemma Conclude<O(!new)>(job: Job, log: Log, outcomes: seq<Option<O>>, results: seq<O>)
    requires job.size == |outcomes| && IsRun(job, log) && Ended(job, log)
    requires Below(Taken(log), |outcomes|) && results == Outputs(outcomes, Taken(log))
    ensures Bounded(log, job.bound) && Inv(job, log)
    ensures Cancelled(log) ==> job.cancelAt.Some? && job.cancelAt.value < Reads(log)
    ensures exists at :: Delivers(outcomes, Taken(log), at, results)
    ensures !Cancelled(log) && job.bound > 0 ==>
              && Starts(log) == Upto(|outcomes|)
              && forall v :: multiset(results)[v] == |set i | 0 <= i < |outcomes| && outcomes[i] == Some(v)|
    ensures job.bound == 0 ==> log == []
  {
    RunBounded(job, log);
    RunInv(job, log);
    var at := OutputsDeliver(outcomes, Taken(log));
    if Cancelled(log) {
      CancelledWasSet(job, log);
    }
    if !Cancelled(log) && job.bound > 0 {
      CompleteUnlessCancelled(job, log);
      forall v
        ensures multiset(results)[v] == |set i | 0 <= i < |outcomes| && outcomes[i] == Some(v)|
      {
        CompleteCount(outcomes, Taken(log), v);
      }
    }
    if job.bound == 0 {
      ZeroScansNothing(job, log);
    }
  }

  /**
   The loop runs the protocol to its end, and its results are those taken. So in flight never exceeds
   the batch size, starts are a prefix of the input with each item once, a set token is only ever
   found where it is set, and unless it is found set a positive batch size yields every item's output.
   */
  method BatchScan<O(!new)>(outcomes: seq<Option<O>>, batchSize: nat, cancelAt: Option<nat>)
    returns (results: seq<O>, log: Log)
    ensures IsRun(Job(|outcomes|, batchSize, cancelAt), log) && Ended(Job(|outcomes|, batchSize, cancelAt), log)
    ensures Below(Taken(log), |outcomes|) && results == Outputs(outcomes, Taken(log))
    ensures Bounded(log, batchSize)
    ensures |Starts(log)| <= |outcomes| && Starts(log) == Upto(|Starts(log)|)
    ensures Cancelled(log) ==> cancelAt.Some? && cancelAt.value < Reads(log)
    ensures exists at :: Delivers(outcomes, Taken(log), at, results)
    ensures !Cancelled(log) && batchSize > 0 ==>
              && Starts(log) == Upto(|outcomes|)
              && forall v :: multiset(results)[v] == |set i | 0 <= i < |outcomes| && outcomes[i] == Some(v)|
    ensures batchSize == 0 ==> log == [] && results == []
  {
    var job := Job(|outcomes|, batchSize, cancelAt);
    results, log := [], [];
    var next, looks := 0, 0;
    var inFlight: set<nat> := {};
    TracksEmpty(job);
    next, inFlight, looks, log := Fill(job, next, inFlight, looks, log);
    while inFlight != {}
      invariant Tracks(job, log, next, inFlight, looks) && Waiting(job, log)
      invariant Below(Taken(log), |outcomes|) && results == Outputs(outcomes, Taken(log))
      invariant |Finishes(log)| <= |outcomes|
      decreases |outcomes| - |Finishes(log)|
    {
      var i, cancelled;
      ghost var before := Taken(log);
      i, cancelled, inFlight, looks, log := NextCompleted(job, next, inFlight, looks, log);
      RunInv(job, log);
      if cancelled {
        Conclude(job, log, outcomes, results);
        return;
      }
      OutputsSnoc(outcomes, before, i);
      if outcomes[i].Some? {
        results := results + [outcomes[i].value];
      }
      next, inFlight, looks, log := Fill(job, next, inFlight, looks, log);
    }
    Conclude(job, log, outcomes, results);
  }
}
