/**
 The file-descriptor budget: how many hosts are deep-scanned at once, and what their probes add up
 to while the batch controller shrinks and recovers underneath them.
 */
module FdBudget {
  import opened Wrappers
  import opened Arithmetic
  import opened ScanController
  import BatchScan

  const BASE_RESERVED: nat := 203

  datatype Platform = Linux | MacOs

  function Reserved(arpSubnets: nat): nat {
    BASE_RESERVED + arpSubnets * 2
  }

  function Available(limit: nat, arpSubnets: nat): nat {
    if limit < Reserved(arpSubnets) then 0 else limit - Reserved(arpSubnets)
  }

  function PerHost(batch: nat): (n: nat)
    ensures n >= batch + 10
  {
    batch + Min(batch / 2, 50) + 10
  }

  /** `get_optimal_deep_scan_concurrency`, with the extra cap macOS puts on low limits. */
  function Concurrency(p: Platform, limit: nat, batch: nat, arpSubnets: nat): nat {
    DivNat(Available(limit, arpSubnets), PerHost(batch));
    var n := Max(1, Available(limit, arpSubnets) / PerHost(batch));
    if p == MacOs && limit < 512 then Min(n, 2) else n
  }

  lemma QuotientExact(available: nat, per: nat, n: nat)
    requires per > 0
    ensures available / per == n <==> n * per <= available < (n + 1) * per
  {
    var q := available / per;
    assert available == per * q + available % per;
    if n * per <= available < (n + 1) * per {
      assert (n + 1) * per == n * per + per;
      DivUnique(available, per, n, available - n * per);
    }
  }

  /**
   On Linux the answer is the largest number of hosts that fit, each at the cost of a TCP batch, half
   that in endpoints up to 50 and 10 UDP probes, beside 203 reserved descriptors and two per ARP subnet;
   and never less than one.
   */
  lemma LinuxConcurrencyExact(limit: nat, batch: nat, arp: nat, n: nat)
    ensures
      var cost := batch + (if batch / 2 < 50 then batch / 2 else 50) + 10;
      Concurrency(Linux, limit, batch, arp) == n <==>
      n >= 1 && (n == 1 || 203 + 2 * arp + n * cost <= limit) && 203 + 2 * arp + (n + 1) * cost > limit
  {
    var cost := batch + (if batch / 2 < 50 then batch / 2 else 50) + 10;
    assert PerHost(batch) == cost;
    var available := Available(limit, arp);
    QuotientExact(available, cost, n);
    QuotientExact(available, cost, 0);
    assert (n + 1) * cost == n * cost + cost;
  }

  /** On macOS it is the same from a limit of 512 up, and at most two below. */
  lemma MacOsConcurrencyExact(limit: nat, batch: nat, arp: nat)
    ensures limit >= 512 ==> Concurrency(MacOs, limit, batch, arp) == Concurrency(Linux, limit, batch, arp)
    ensures limit < 512 && Concurrency(Linux, limit, batch, arp) <= 2 ==>
              Concurrency(MacOs, limit, batch, arp) == Concurrency(Linux, limit, batch, arp)
    ensures limit < 512 && Concurrency(Linux, limit, batch, arp) > 2 ==> Concurrency(MacOs, limit, batch, arp) == 2
  {
  }

  datatype Phase = Tcp | Udp | Endpoints

  /** One host's scan: the batch size it was started with, and the batch loop of its current phase. */
  datatype HostScan = HostScan(batch: nat, job: BatchScan.Job, log: BatchScan.Log)

  datatype Pipeline = Pipeline(limit: nat, batch: nat, arpSubnets: nat, concurrency: nat, scans: seq<HostScan>)

  /** The size a scan phase asks the batch loop for, given what the controller shows at that moment. */
  function PhaseBound(batch: nat, phase: Phase, shown: nat): (n: nat)
    ensures n <= batch
  {
    match phase
    case Tcp => Min(batch, shown)
    case Udp => Min(batch, 10)
    case Endpoints => Min(batch / 2, 50)
  }

  /** What each phase asks for: the shown size up to the batch, ten up to the batch, half the batch up to fifty. */
  lemma PhaseBoundExact(batch: nat, shown: nat)
    ensures
      var n := PhaseBound(batch, Tcp, shown);
      n <= batch && n <= shown && (n == batch || n == shown)
    ensures
      var n := PhaseBound(batch, Udp, shown);
      n <= batch && n <= 10 && (n == batch || n == 10)
    ensures
      var n := PhaseBound(batch, Endpoints, shown);
      n <= 50 && 2 * n <= batch && (n == 50 || 2 * n + 1 >= batch)
  {
  }

  /** From a batch of ten up, the cost of a host is the sum of its phases' largest bounds. */
  lemma CostIsSumOfPhases(batch: nat, shown: nat)
    requires batch >= 10 && shown >= batch
    ensures batch + (if batch / 2 < 50 then batch / 2 else 50) + 10 ==
            PhaseBound(batch, Tcp, shown) + PhaseBound(batch, Endpoints, shown) + PhaseBound(batch, Udp, shown)
  {
  }

  /** A loop that has not started anything and has nothing to do. */
  const NO_JOB := BatchScan.Job(0, 0, None)

  /** The descriptors a host's probes hold; a cancelled loop drops those still in flight. */
  function Probes(h: HostScan): nat {
    if BatchScan.Last(h.log) == Some(BatchScan.Checked(true)) || BatchScan.InFlight(h.log) < 0 then 0
    else BatchScan.InFlight(h.log)
  }

  datatype Move =
    | StartHost(shown: nat)
    | FinishHost(index: nat)
    | EnterPhase(index: nat, phase: Phase, shown: nat, size: nat, cancelAt: Option<nat>)
    | Probe(index: nat, event: BatchScan.ScanEvent)
    | CloseArp

  predicate Enabled(s: Pipeline, m: Move) {
    match m
    case StartHost(_) => |s.scans| < s.concurrency
    case FinishHost(i) => i < |s.scans|
    case EnterPhase(i, _, _, _, _) => i < |s.scans| && BatchScan.Ended(s.scans[i].job, s.scans[i].log)
    case Probe(i, e) => i < |s.scans| && BatchScan.MayFollow(s.scans[i].job, s.scans[i].log, e)
    case CloseArp => true
  }

  /**
   A host takes the smaller of the configured batch and the size the controller shows. Its phases run
   one after another, each a batch loop whose bound is fixed when the phase begins. When the ARP
   channels close, their descriptors are handed to the deep scans.
   */
  function Do(p: Platform, s: Pipeline, m: Move): Pipeline
    requires Enabled(s, m)
  {
    match m
    case StartHost(shown) => s.(scans := s.scans + [HostScan(Min(s.batch, shown), NO_JOB, [])])
    case FinishHost(i) => s.(scans := s.scans[..i] + s.scans[i + 1..])
    case EnterPhase(i, phase, shown, size, cancelAt) =>
      var h := s.scans[i];
      s.(scans := s.scans[i := HostScan(h.batch, BatchScan.Job(size, PhaseBound(h.batch, phase, shown), cancelAt), [])])
    case Probe(i, e) => s.(scans := s.scans[i := s.scans[i].(log := s.scans[i].log + [e])])
    case CloseArp => s.(arpSubnets := 0, concurrency := Max(s.concurrency, Concurrency(p, s.limit, s.batch, 0)))
  }

  function Begin(p: Platform, limit: nat, batch: nat, arpSubnets: nat): Pipeline {
    Pipeline(limit, batch, arpSubnets, Concurrency(p, limit, batch, arpSubnets), [])
  }

  /** A run is a sequence of states joined by enabled moves. */
  ghost predicate IsRun(p: Platform, run: seq<Pipeline>, moves: seq<Move>) {
    && |run| == |moves| + 1
    && forall k :: 0 <= k < |moves| ==> Enabled(run[k], moves[k]) && run[k + 1] == Do(p, run[k], moves[k])
  }

  function InFlight(scans: seq<HostScan>): nat {
    if scans == [] then 0 else InFlight(scans[..|scans| - 1]) + Probes(scans[|scans| - 1])
  }

  predicate WithinLimit(s: Pipeline) {
    InFlight(s.scans) + Reserved(s.arpSubnets) <= s.limit
  }

  /** A host's log is a run of its batch loop, whose bound is within the batch. */
  ghost predicate HostInv(h: HostScan, batch: nat) {
    BatchScan.IsRun(h.job, h.log) && h.job.bound <= batch && h.batch <= batch
  }

  ghost predicate Inv(s: Pipeline) {
    && |s.scans| <= s.concurrency <= Concurrency(Linux, s.limit, s.batch, s.arpSubnets)
    && forall i :: 0 <= i < |s.scans| ==> HostInv(s.scans[i], s.batch)
  }

  /** What the batch loop guarantees of its run bounds the host's descriptors. */
  lemma HostBounded(h: HostScan, batch: nat)
    requires HostInv(h, batch)
    ensures Probes(h) <= batch
  {
    BatchScan.RunInv(h.job, h.log);
  }

  lemma FewerArpMoreHosts(limit: nat, batch: nat, arpSubnets: nat)
    ensures Concurrency(Linux, limit, batch, arpSubnets) <= Concurrency(Linux, limit, batch, 0)
  {
    DivMonotone(Available(limit, arpSubnets), Available(limit, 0), PerHost(batch));
  }

  lemma DoKeepsInv(p: Platform, s: Pipeline, m: Move)
    requires Inv(s) && Enabled(s, m)
    ensures Inv(Do(p, s, m)) && Do(p, s, m).limit == s.limit && Do(p, s, m).batch == s.batch
    ensures Do(p, s, m).arpSubnets <= s.arpSubnets
  {
    FewerArpMoreHosts(s.limit, s.batch, s.arpSubnets);
    if m.Probe? {
      BatchScan.RunSnoc(s.scans[m.index].job, s.scans[m.index].log, m.event);
    }
  }

  lemma AddOne(sum: nat, n: nat, batch: nat, x: nat)
    requires n > 0 && sum <= (n - 1) * batch && x <= batch
    ensures sum + x <= n * batch
  {
  }

  lemma {:induction false} InFlightBound(scans: seq<HostScan>, batch: nat)
    requires forall i :: 0 <= i < |scans| ==> HostInv(scans[i], batch)
    ensures InFlight(scans) <= |scans| * batch
  {
    if scans != [] {
      var front, last := scans[..|scans| - 1], scans[|scans| - 1];
      InFlightBound(front, batch);
      HostBounded(last, batch);
      AddOne(InFlight(front), |scans|, batch, Probes(last));
    }
  }

  lemma MulMonotone(a: nat, b: nat, c: nat, d: nat)
    requires a <= b && c <= d
    ensures a * c <= b * d
  {
    assert a * c <= b * c;
    assert b * c <= b * d;
  }

  /** As many hosts as the quotient admits fit, and one fits if its batch does. */
  lemma HostsFit(hosts: nat, available: nat, per: nat, batch: nat)
    requires per > 0 && batch <= per && batch <= available && hosts <= Max(1, available / per)
    ensures hosts * batch <= available
  {
    if hosts > 1 {
      assert available == per * (available / per) + available % per;
      MulMonotone(hosts, available / per, batch, per);
    } else {
      MulMonotone(hosts, 1, batch, batch);
    }
  }

  /** If one host's largest phase fits, as many as the budget admits fit. */
  lemma InvWithinLimit(s: Pipeline)
    requires Inv(s) && Reserved(s.arpSubnets) + s.batch <= s.limit
    ensures WithinLimit(s)
  {
    InFlightBound(s.scans, s.batch);
    HostsFit(|s.scans|, Available(s.limit, s.arpSubnets), PerHost(s.batch), s.batch);
  }

  lemma {:induction false} RunInv(p: Platform, run: seq<Pipeline>, moves: seq<Move>,
                                  limit: nat, batch: nat, arp: nat, k: nat)
    requires IsRun(p, run, moves) && run[0] == Begin(p, limit, batch, arp) && k < |run|
    ensures Inv(run[k]) && run[k].limit == limit && run[k].batch == batch && run[k].arpSubnets <= arp
  {
    if k > 0 {
      RunInv(p, run, moves, limit, batch, arp, k - 1);
      DoKeepsInv(p, run[k - 1], moves[k - 1]);
    }
  }

  /** Every state of every run stays within the descriptor limit. */
  ghost predicate AlwaysWithinLimit(p: Platform, limit: nat, batch: nat, arp: nat) {
    forall run, moves, k ::
      IsRun(p, run, moves) && run[0] == Begin(p, limit, batch, arp) && 0 <= k < |run| ==> WithinLimit(run[k])
  }

  // ----- as many hosts as the budget admits -----

  lemma Extend(p: Platform, run: seq<Pipeline>, moves: seq<Move>, m: Move)
    returns (run': seq<Pipeline>, moves': seq<Move>)
    requires IsRun(p, run, moves) && Enabled(run[|moves|], m)
    ensures IsRun(p, run', moves') && run'[0] == run[0] && run'[|moves'|] == Do(p, run[|moves|], m)
  {
    run', moves' := run + [Do(p, run[|moves|], m)], moves + [m];
  }

  /** The pipeline can scan as many hosts at once as the platform's concurrency says, and after ARP as it says then. */
  lemma {:induction false} ReachesHosts(p: Platform, limit: nat, batch: nat, arp: nat, n: nat, closed: bool)
    returns (run: seq<Pipeline>, moves: seq<Move>)
    requires n <= Concurrency(p, limit, batch, arp) || (closed && n <= Concurrency(p, limit, batch, 0))
    ensures IsRun(p, run, moves) && run[0] == Begin(p, limit, batch, arp) && |run[|moves|].scans| == n
    ensures
      var s := run[|moves|];
      && s.limit == limit && s.batch == batch
      && s.concurrency >= Concurrency(p, limit, batch, arp)
      && (closed ==> s.concurrency >= Concurrency(p, limit, batch, 0))
  {
    if n == 0 {
      run, moves := [Begin(p, limit, batch, arp)], [];
      if closed {
        run, moves := Extend(p, run, moves, CloseArp);
      }
    } else {
      run, moves := ReachesHosts(p, limit, batch, arp, n - 1, closed);
      run, moves := Extend(p, run, moves, StartHost(batch));
    }
  }

  // ----- a host that fills its batch -----

  /** One host whose batch loop has started `n` probes and finished none. */
  ghost predicate Filled(s: Pipeline, limit: nat, batch: nat, arp: nat, n: nat) {
    && s.limit == limit && s.arpSubnets == arp && |s.scans| == 1
    && s.scans[0].job == BatchScan.Job(batch, batch, None)
    && BatchScan.Filling(s.scans[0].log)
    && |BatchScan.Starts(s.scans[0].log)| == n && BatchScan.Finishes(s.scans[0].log) == []
  }

  lemma EnterTcp(p: Platform, limit: nat, batch: nat, arp: nat) returns (run: seq<Pipeline>, moves: seq<Move>)
    ensures IsRun(p, run, moves) && run[0] == Begin(p, limit, batch, arp) && Filled(run[|moves|], limit, batch, arp, 0)
  {
    run, moves := [Begin(p, limit, batch, arp)], [];
    run, moves := Extend(p, run, moves, StartHost(batch));
    assert run[|moves|].scans == [HostScan(batch, NO_JOB, [])];
    run, moves := Extend(p, run, moves, EnterPhase(0, Tcp, batch, batch, None));
  }

  lemma {:induction false} FillBatch(p: Platform, limit: nat, batch: nat, arp: nat, n: nat)
    returns (run: seq<Pipeline>, moves: seq<Move>)
    requires n <= batch
    ensures IsRun(p, run, moves) && run[0] == Begin(p, limit, batch, arp) && Filled(run[|moves|], limit, batch, arp, n)
  {
    if n == 0 {
      run, moves := EnterTcp(p, limit, batch, arp);
    } else {
      run, moves := FillBatch(p, limit, batch, arp, n - 1);
      run, moves := Extend(p, run, moves, Probe(0, BatchScan.Looked(false)));
      run, moves := Extend(p, run, moves, Probe(0, BatchScan.Started(n - 1)));
    }
  }

  /**
   The budget, exactly. Whatever the controller shows and however hosts, phases, probes and the end
   of ARP interleave, descriptors in flight plus the reserve stay within the limit at every moment if
   and only if the limit covers the reserve and one full TCP batch.
   */
  lemma BudgetExact(p: Platform, limit: nat, batch: nat, arp: nat)
    ensures AlwaysWithinLimit(p, limit, batch, arp) <==> 203 + 2 * arp + batch <= limit
  {
    if Reserved(arp) + batch <= limit {
      forall run, moves, k | IsRun(p, run, moves) && run[0] == Begin(p, limit, batch, arp) && 0 <= k < |run|
        ensures WithinLimit(run[k])
      {
        RunInv(p, run, moves, limit, batch, arp, k);
        InvWithinLimit(run[k]);
      }
    } else {
      var run, moves := FillBatch(p, limit, batch, arp, batch);
    }
  }

  /** In particular, a limit that covers one host by the budget's own count is always kept. */
  lemma CoveredHostIsSafe(p: Platform, limit: nat, batch: nat, arp: nat)
    requires 203 + 2 * arp + batch + (if batch / 2 < 50 then batch / 2 else 50) + 10 <= limit
    ensures AlwaysWithinLimit(p, limit, batch, arp)
  {
    BudgetExact(p, limit, batch, arp);
  }
}
