/**
 The ServerPoll protocol over the entity buffer. An event is one critical section of one lock, so
 a trace is any interleaving of discovery tasks pushing, the server polling and confirming, and a
 session being cleared: `get_pending`, `clear_all` and the confirmation handler each contribute
 several events that others may fall between.
 */
module ServerPoll {
  import opened Wrappers
  import opened EntityBuffer

  datatype Event =
    | PushSubnet(subnet: Subnet)
    | PushHost(request: HostRequest)
    | PushVlans(ids: set<Uuid>)
    | PollHosts
    | PollSubnets
    | MarkSubnet(subnetId: Uuid, actualSubnet: Subnet)
    | MarkHost(hostId: Uuid, response: HostResponse)
    | ClearHosts
    | ClearSubnets
    | ClearVlans

  type Trace = seq<Event>

  function Step(b: Buffer, e: Event): Buffer {
    match e
    case PushSubnet(s) => b.(subnets := InsertSubnet(b.subnets, s))
    case PushHost(r) => b.(hosts := InsertHost(b.hosts, r))
    case PushVlans(ids) => b.(vlans := b.vlans + ids)
    case PollHosts => b
    case PollSubnets => b
    case MarkSubnet(id, actual) => b.(subnets := ConfirmSubnet(b.subnets, id, actual))
    case MarkHost(id, resp) => b.(hosts := ConfirmHost(b.hosts, id, resp))
    case ClearHosts => b.(hosts := map[])
    case ClearSubnets => b.(subnets := map[])
    case ClearVlans => b.(vlans := {})
  }

  /** The buffer after a trace from an empty one. */
  function Run(t: Trace): Buffer {
    if t == [] then EMPTY else Step(Run(t[..|t| - 1]), t[|t| - 1])
  }

  /** The buffer just before event `k`. */
  function Before(t: Trace, k: nat): Buffer
    requires k <= |t|
  {
    Run(t[..k])
  }

  lemma BeforeNext(t: Trace, k: nat)
    requires k < |t|
    ensures Before(t, k + 1) == Step(Before(t, k), t[k])
  {
    assert t[..k + 1][..k] == t[..k];
  }

  lemma BeforeEnd(t: Trace)
    ensures Before(t, |t|) == Run(t)
  {
    assert t[..|t|] == t;
  }

  predicate IsPending(b: Buffer, h: Uuid) {
    h in b.hosts && b.hosts[h].Pending?
  }

  predicate Pushes(e: Event, h: Uuid) {
    e.PushHost? && e.request.host.id == h
  }

  /** Event `k` is a confirmation that finds host `h` pending, and so replaces its entry. */
  predicate Applied(t: Trace, k: nat, h: Uuid)
    requires k < |t|
  {
    t[k].MarkHost? && t[k].hostId == h && IsPending(Before(t, k), h)
  }

  // ----- what a pending entry holds -----

  /** The pushes of `h` since its entry was last confirmed or cleared, read off the trace alone. */
  function OpenPushes(t: Trace, h: Uuid): seq<HostRequest> {
    if t == [] then []
    else
      var open, last := OpenPushes(t[..|t| - 1], h), t[|t| - 1];
      if Pushes(last, h) then open + [last.request]
      else if last.ClearHosts? || (last.MarkHost? && last.hostId == h) then []
      else open
  }

  function Flatten<T>(ss: seq<seq<T>>): seq<T> {
    if ss == [] then [] else Flatten(ss[..|ss| - 1]) + ss[|ss| - 1]
  }

  /** The first request, its lists extended by those of all the others, nothing else of them kept. */
  function Combined(rs: seq<HostRequest>): HostRequest
    requires rs != []
  {
    var n := |rs|;
    rs[0].(
    host := rs[0].host.(credentials := Flatten(seq(n, i requires 0 <= i < n => rs[i].host.credentials))),
    addresses := Flatten(seq(n, i requires 0 <= i < n => rs[i].addresses)),
    ports := Flatten(seq(n, i requires 0 <= i < n => rs[i].ports)),
    services := Flatten(seq(n, i requires 0 <= i < n => rs[i].services)),
    interfaces := Flatten(seq(n, i requires 0 <= i < n => rs[i].interfaces)))
  }

  lemma CombinedOne(r: HostRequest)
    ensures Combined([r]) == r
  {
    var one := [r];
    assert seq(1, i requires 0 <= i < 1 => one[i].host.credentials) == [r.host.credentials];
    assert seq(1, i requires 0 <= i < 1 => one[i].addresses) == [r.addresses];
    assert seq(1, i requires 0 <= i < 1 => one[i].ports) == [r.ports];
    assert seq(1, i requires 0 <= i < 1 => one[i].services) == [r.services];
    assert seq(1, i requires 0 <= i < 1 => one[i].interfaces) == [r.interfaces];
    assert Flatten([r.host.credentials]) == r.host.credentials;
    assert Flatten([r.addresses]) == r.addresses;
    assert Flatten([r.ports]) == r.ports;
    assert Flatten([r.services]) == r.services;
    assert Flatten([r.interfaces]) == r.interfaces;
  }

  lemma CombinedSnoc(rs: seq<HostRequest>, r: HostRequest)
    requires rs != []
    ensures Combined(rs + [r]) == Merge(Combined(rs), r)
  {
    var n, all := |rs|, rs + [r];
    var m := n + 1;
    assert seq(m, i requires 0 <= i < m => all[i].host.credentials)
        == seq(n, i requires 0 <= i < n => rs[i].host.credentials) + [r.host.credentials];
    assert seq(m, i requires 0 <= i < m => all[i].addresses)
        == seq(n, i requires 0 <= i < n => rs[i].addresses) + [r.addresses];
    assert seq(m, i requires 0 <= i < m => all[i].ports)
        == seq(n, i requires 0 <= i < n => rs[i].ports) + [r.ports];
    assert seq(m, i requires 0 <= i < m => all[i].services)
        == seq(n, i requires 0 <= i < n => rs[i].services) + [r.services];
    assert seq(m, i requires 0 <= i < m => all[i].interfaces)
        == seq(n, i requires 0 <= i < n => rs[i].interfaces) + [r.interfaces];
  }

  /**
   After any interleaving, a host is pending exactly when it has open pushes, and then its entry is
   the first of them with every list of the later ones appended in push order. In particular the
   `subnets` and completeness flags of every push but the first are gone.
   */
  lemma {:induction false} PendingEntryExact(t: Trace, h: Uuid)
    ensures IsPending(Run(t), h) <==> OpenPushes(t, h) != []
    ensures IsPending(Run(t), h) ==> Run(t).hosts[h].data == Combined(OpenPushes(t, h))
    ensures forall r :: r in OpenPushes(t, h) ==> r.host.id == h
  {
    if t != [] {
      var front, last := t[..|t| - 1], t[|t| - 1];
      PendingEntryExact(front, h);
      if Pushes(last, h) {
        if IsPending(Run(front), h) {
          CombinedSnoc(OpenPushes(front, h), last.request);
        } else {
          CombinedOne(last.request);
          assert OpenPushes(t, h) == [last.request];
        }
      }
    }
  }

  /** Event `i` is the push that opened the pending entry: the first of `h` since it was confirmed or cleared. */
  ghost predicate Opens(t: Trace, i: nat, h: Uuid) {
    && i < |t| && Pushes(t[i], h) && OpenPushes(t[..i], h) == []
    && forall m :: i < m < |t| ==> !t[m].ClearHosts? && !(t[m].MarkHost? && t[m].hostId == h)
  }

  lemma {:induction false} OpenedBy(t: Trace, i: nat, h: Uuid)
    requires Opens(t, i, h)
    ensures OpenPushes(t, h) != [] && OpenPushes(t, h)[0] == t[i].request
  {
    var n := |t| - 1;
    if i < n {
      assert t[..n][..i] == t[..i];
      OpenedBy(t[..n], i, h);
    }
  }

  /**
   A pending entry claims exactly what its opening push claimed and has exactly that push's subnets: a
   later push can neither withdraw a claim nor add a subnet.
   */
  lemma FirstPushDecides(t: Trace, i: nat, h: Uuid)
    requires Opens(t, i, h)
    ensures IsPending(Run(t), h)
    ensures Run(t).hosts[h].data.interfacesComplete == t[i].request.interfacesComplete
    ensures Run(t).hosts[h].data.interfaceDataComplete == t[i].request.interfaceDataComplete
    ensures Run(t).hosts[h].data.subnets == t[i].request.subnets
  {
    PendingEntryExact(t, h);
    OpenedBy(t, i, h);
  }

  // ----- conservation of pushed children -----

  datatype Item =
    | Address(address: Child)
    | Port(port: Child)
    | ServiceItem(service: Service)
    | Interface(iface: Child)
    | Credential(credential: Uuid)

  predicate Carries(r: HostRequest, x: Item) {
    match x
    case Address(c) => c in r.addresses
    case Port(c) => c in r.ports
    case ServiceItem(s) => s in r.services
    case Interface(c) => c in r.interfaces
    case Credential(c) => c in r.host.credentials
  }

  predicate Holds(b: Buffer, h: Uuid, x: Item) {
    IsPending(b, h) && Carries(b.hosts[h].data, x)
  }

  /** Poll `j` shipped `x` as a child of `h`. */
  predicate Shipped(t: Trace, j: nat, h: Uuid, x: Item)
    requires j < |t|
  {
    t[j].PollHosts? && Holds(Before(t, j), h, x)
  }

  /** The child pushed at `i` has reached the server, or still can. */
  ghost predicate Conserved(t: Trace, i: nat, h: Uuid, x: Item) {
    Holds(Run(t), h, x) || exists j :: i < j < |t| && Shipped(t, j, h, x)
  }

  /** Every confirmation applied to `h` after event `i` comes after a poll that follows `i`. */
  ghost predicate PolledBeforeConfirmed(t: Trace, i: nat, h: Uuid) {
    forall k :: i < k < |t| && Applied(t, k, h) ==> exists j :: i < j < k && t[j].PollHosts?
  }

  ghost predicate NoClearAfter(t: Trace, i: nat) {
    forall k :: i < k < |t| ==> !t[k].ClearHosts?
  }

  /** A pushed child stays in the pending entry until a confirmation is applied. */
  lemma {:induction false} HeldUntilApplied(t: Trace, i: nat, n: nat, h: Uuid, x: Item)
    requires i < n <= |t| && Pushes(t[i], h) && Carries(t[i].request, x)
    requires NoClearAfter(t, i)
    requires forall k :: i < k < n ==> !Applied(t, k, h)
    ensures Holds(Before(t, n), h, x)
  {
    BeforeNext(t, n - 1);
    if n > i + 1 {
      HeldUntilApplied(t, i, n - 1, h, x);
      assert !t[n - 1].ClearHosts? && !Applied(t, n - 1, h);
    }
  }

  lemma {:induction false} FirstApplied(t: Trace, i: nat, k: nat, h: Uuid) returns (first: nat)
    requires i < k < |t| && Applied(t, k, h)
    ensures i < first <= k && Applied(t, first, h)
    ensures forall m :: i < m < first ==> !Applied(t, m, h)
  {
    if m :| i < m < k && Applied(t, m, h) {
      first := FirstApplied(t, i, m, h);
    } else {
      first := k;
    }
  }

  /** A poll between the push and each applied confirmation saves every child, pushed again or not. */
  lemma PolledChildIsConserved(t: Trace, i: nat, h: Uuid, x: Item)
    requires i < |t| && Pushes(t[i], h) && Carries(t[i].request, x)
    requires NoClearAfter(t, i) && PolledBeforeConfirmed(t, i, h)
    ensures Conserved(t, i, h, x)
  {
    if k :| i < k < |t| && Applied(t, k, h) {
      var first := FirstApplied(t, i, k, h);
      var j :| i < j < first && t[j].PollHosts?;
      HeldUntilApplied(t, i, j, h, x);
      assert Shipped(t, j, h, x);
    } else {
      HeldUntilApplied(t, i, |t|, h, x);
      BeforeEnd(t);
    }
  }

  /** One event earlier: what is held was pushed by the event, or held already and not replaced by it. */
  lemma HeldBefore(b: Buffer, e: Event, h: Uuid, x: Item)
    requires Holds(Step(b, e), h, x) && !(Pushes(e, h) && Carries(e.request, x))
    ensures Holds(b, h, x) && !(e.MarkHost? && e.hostId == h)
  {
  }

  /** Whatever is held before event `n` was pushed earlier, and no confirmation was applied since. */
  lemma {:induction false} HeldFrom(t: Trace, n: nat, h: Uuid, x: Item) returns (m: nat)
    requires n <= |t| && Holds(Before(t, n), h, x)
    ensures m < n && Pushes(t[m], h) && Carries(t[m].request, x)
    ensures forall k :: m < k < n ==> !Applied(t, k, h)
  {
    BeforeNext(t, n - 1);
    if Pushes(t[n - 1], h) && Carries(t[n - 1].request, x) {
      m := n - 1;
    } else {
      HeldBefore(Before(t, n - 1), t[n - 1], h, x);
      m := HeldFrom(t, n - 1, h, x);
    }
  }

  /** The child is pushed at `m`, at or after `i`, and every confirmation applied after that follows a poll after it. */
  ghost predicate SavedBy(t: Trace, i: nat, m: nat, h: Uuid, x: Item) {
    i <= m < |t| && Pushes(t[m], h) && Carries(t[m].request, x) && PolledBeforeConfirmed(t, m, h)
  }

  /** What is held at `n` was saved by the push it stems from, if `n` is the end or a poll. */
  lemma HeldIsSaved(t: Trace, i: nat, n: nat, h: Uuid, x: Item) returns (m: nat)
    requires i < n <= |t| && Pushes(t[i], h) && Carries(t[i].request, x)
    requires Holds(Before(t, n), h, x) && (n < |t| ==> t[n].PollHosts?)
    ensures SavedBy(t, i, m, h, x)
  {
    m := HeldFrom(t, n, h, x);
    if m < i {
      m := i;
    }
  }

  /**
   Conservation, exactly, for every child pushed at `i`: it is still pending or was shipped by a poll if
   and only if one of its pushes from `i` on has a poll between it and every confirmation applied later.
   */
  lemma ChildConservedIff(t: Trace, i: nat, h: Uuid, x: Item)
    requires i < |t| && Pushes(t[i], h) && Carries(t[i].request, x)
    requires NoClearAfter(t, i)
    ensures Conserved(t, i, h, x) <==> exists m :: SavedBy(t, i, m, h, x)
  {
    if m :| SavedBy(t, i, m, h, x) {
      PolledChildIsConserved(t, m, h, x);
    }
    if Holds(Run(t), h, x) {
      BeforeEnd(t);
      var m := HeldIsSaved(t, i, |t|, h, x);
    } else if j :| i < j < |t| && Shipped(t, j, h, x) {
      var m := HeldIsSaved(t, i, j, h, x);
    }
  }

  /** A child that is not pushed again is conserved if and only if its own push is followed by such polls. */
  lemma LastPushConservedIff(t: Trace, i: nat, h: Uuid, x: Item)
    requires i < |t| && Pushes(t[i], h) && Carries(t[i].request, x)
    requires NoClearAfter(t, i)
    requires forall m :: i < m < |t| && Pushes(t[m], h) ==> !Carries(t[m].request, x)
    ensures Conserved(t, i, h, x) <==> PolledBeforeConfirmed(t, i, h)
  {
    ChildConservedIff(t, i, h, x);
    assert PolledBeforeConfirmed(t, i, h) ==> SavedBy(t, i, i, h, x);
  }

  /** Confirmation `k` follows a poll that follows every push of `h` before `k`. */
  ghost predicate ConfirmedAfterPoll(t: Trace, k: nat, h: Uuid)
    requires k < |t|
  {
    exists j :: 0 <= j < k && t[j].PollHosts? && forall m :: j < m < k ==> !Pushes(t[m], h)
  }

  /** A server that confirms only after polling the latest push loses nothing pushed since the last clear. */
  lemma HostConserved(t: Trace, h: Uuid)
    requires forall k :: 0 <= k < |t| && Applied(t, k, h) ==> ConfirmedAfterPoll(t, k, h)
    ensures forall i, x :: 0 <= i < |t| && Pushes(t[i], h) && Carries(t[i].request, x) && NoClearAfter(t, i) ==>
              Conserved(t, i, h, x)
  {
    forall i, x | 0 <= i < |t| && Pushes(t[i], h) && Carries(t[i].request, x) && NoClearAfter(t, i)
      ensures Conserved(t, i, h, x)
    {
      forall k | i < k < |t| && Applied(t, k, h)
        ensures exists j :: i < j < k && t[j].PollHosts?
      {
        assert ConfirmedAfterPoll(t, k, h);
        var j :| 0 <= j < k && t[j].PollHosts? && forall m :: j < m < k ==> !Pushes(t[m], h);
        assert i < j;
      }
      PolledChildIsConserved(t, i, h, x);
    }
  }

  /**
   And nothing weaker will do: if one applied confirmation does not follow a poll of the latest
   push, the children of that push that are not pushed again are lost.
   */
  lemma UnpolledPushIsLost(t: Trace, k: nat, i: nat, h: Uuid, x: Item)
    requires i < k < |t| && Applied(t, k, h)
    requires Pushes(t[i], h) && Carries(t[i].request, x) && NoClearAfter(t, i)
    requires forall m :: i < m < k ==> !Pushes(t[m], h)
    requires forall m :: i < m < |t| && Pushes(t[m], h) ==> !Carries(t[m].request, x)
    requires !ConfirmedAfterPoll(t, k, h)
    ensures !Conserved(t, i, h, x)
  {
    LastPushConservedIff(t, i, h, x);
    assert forall j :: i < j < k ==> !t[j].PollHosts?;
  }

  /** A run that loses a port: merged in after the poll that ships the address, it is wiped by the confirmation. */
  lemma LosingRun()
    ensures
      var stub := HostRequest(Host(7, [], 0), [Child(1, 0)], [], [], [], [], true, ALL_COMPLETE);
      var late := stub.(addresses := [], ports := [Child(2, 0)]);
      var answer := HostResponse(Host(70, [], 0), [Child(10, 0)], [], [], []);
      var t := [PushHost(stub), PollHosts, PushHost(late), MarkHost(7, answer)];
      && !Conserved(t, 2, 7, Port(Child(2, 0)))
      && Shipped(t, 1, 7, Address(Child(1, 0))) && !Shipped(t, 1, 7, Port(Child(1, 0)))
  {
    var stub := HostRequest(Host(7, [], 0), [Child(1, 0)], [], [], [], [], true, ALL_COMPLETE);
    var late := stub.(addresses := [], ports := [Child(2, 0)]);
    var answer := HostResponse(Host(70, [], 0), [Child(10, 0)], [], [], []);
    var t := [PushHost(stub), PollHosts, PushHost(late), MarkHost(7, answer)];
    BeforeNext(t, 0);
    assert Before(t, 1) == Buffer(map[], map[7 := Pending(stub)], {});
    assert Child(1, 0) in stub.addresses;
  }

  // ----- provenance of created entries and of the reported ids -----

  /** Confirmation `k` was applied to `h` and neither a push nor a clear has undone it since. */
  ghost predicate LiveHost(t: Trace, k: nat, h: Uuid) {
    && k < |t| && Applied(t, k, h)
    && forall m :: k < m < |t| ==> !Pushes(t[m], h) && !t[m].ClearHosts?
  }

  /** The same for a subnet, whose later confirmations overwrite earlier ones. */
  ghost predicate LiveSubnet(t: Trace, k: nat, id: Uuid) {
    && k < |t| && t[k].MarkSubnet? && t[k].subnetId == id && id in Before(t, k).subnets
    && forall m :: k < m < |t| ==>
         && !t[m].ClearSubnets?
         && !(t[m].PushSubnet? && t[m].subnet.id == id)
         && !(t[m].MarkSubnet? && t[m].subnetId == id)
  }

  /** Push `k` of a subnet that nothing has replaced, confirmed or cleared since. */
  ghost predicate OpenSubnet(t: Trace, k: nat, id: Uuid) {
    && k < |t| && t[k].PushSubnet? && t[k].subnet.id == id
    && forall m :: k < m < |t| ==>
         && !t[m].ClearSubnets?
         && !(t[m].PushSubnet? && t[m].subnet.id == id)
         && !(t[m].MarkSubnet? && t[m].subnetId == id)
  }

  /** A pending subnet is the one its latest push gave, not confirmed or cleared since. */
  lemma {:induction false} PendingSubnetIsOpen(t: Trace, id: Uuid) returns (k: nat)
    requires id in Run(t).subnets && Run(t).subnets[id].Pending?
    ensures OpenSubnet(t, k, id) && Run(t).subnets[id].data == t[k].subnet
  {
    var n := |t| - 1;
    if t[n].PushSubnet? && t[n].subnet.id == id {
      k := n;
    } else {
      k := PendingSubnetIsOpen(t[..n], id);
      assert forall m :: k <= m < n ==> t[m] == t[..n][m];
    }
  }

  lemma {:induction false} OpenSubnetIsPending(t: Trace, k: nat, id: Uuid)
    requires OpenSubnet(t, k, id)
    ensures id in Run(t).subnets && Run(t).subnets[id].Pending? && Run(t).subnets[id].data == t[k].subnet
  {
    var n := |t| - 1;
    if k < n {
      OpenSubnetIsPending(t[..n], k, id);
    }
  }

  lemma BeforeFront(t: Trace, k: nat)
    requires t != [] && k < |t|
    ensures Before(t[..|t| - 1], k) == Before(t, k)
  {
    assert t[..|t| - 1][..k] == t[..k];
  }

  lemma {:induction false} CreatedHostIsLive(t: Trace, h: Uuid) returns (k: nat)
    requires h in Run(t).hosts && Run(t).hosts[h].Created?
    ensures LiveHost(t, k, h) && Answered(Run(t).hosts[h], h, t[k].response)
  {
    var n := |t| - 1;
    var front := t[..n];
    if h in Run(front).hosts && Run(front).hosts[h].Created? {
      k := CreatedHostIsLive(front, h);
      BeforeFront(t, k);
      assert forall m :: k < m < n ==> t[m] == front[m];
    } else {
      k := n;
    }
  }

  lemma {:induction false} LiveHostIsCreated(t: Trace, k: nat, h: Uuid)
    requires LiveHost(t, k, h)
    ensures h in Run(t).hosts && Answered(Run(t).hosts[h], h, t[k].response)
  {
    var n := |t| - 1;
    if k < n {
      BeforeFront(t, k);
      LiveHostIsCreated(t[..n], k, h);
      assert !Pushes(t[n], h) && !t[n].ClearHosts?;
    }
  }

  lemma {:induction false} CreatedSubnetIsLive(t: Trace, id: Uuid) returns (k: nat)
    requires id in Run(t).subnets && Run(t).subnets[id].Created?
    ensures LiveSubnet(t, k, id) && Run(t).subnets[id] == Created(id, t[k].actualSubnet)
  {
    var n := |t| - 1;
    var front := t[..n];
    if t[n].MarkSubnet? && t[n].subnetId == id {
      k := n;
    } else {
      k := CreatedSubnetIsLive(front, id);
      BeforeFront(t, k);
      assert forall m :: k < m < n ==> t[m] == front[m];
    }
  }

  lemma {:induction false} LiveSubnetIsCreated(t: Trace, k: nat, id: Uuid)
    requires LiveSubnet(t, k, id)
    ensures id in Run(t).subnets && Run(t).subnets[id] == Created(id, t[k].actualSubnet)
  {
    var n := |t| - 1;
    if k < n {
      BeforeFront(t, k);
      LiveSubnetIsCreated(t[..n], k, id);
    }
  }

  lemma {:induction false} VlansExact(t: Trace, id: Uuid)
    ensures id in Run(t).vlans <==>
              exists k :: 0 <= k < |t| && t[k].PushVlans? && id in t[k].ids
                          && forall m :: k < m < |t| ==> !t[m].ClearVlans?
  {
    if t != [] {
      var n := |t| - 1;
      var front := t[..n];
      VlansExact(front, id);
      if id in Run(front).vlans && !t[n].ClearVlans? {
        var k :| 0 <= k < n && front[k].PushVlans? && id in front[k].ids
                 && forall m :: k < m < n ==> !front[m].ClearVlans?;
        assert t[k] == front[k] && forall m :: k < m < n ==> t[m] == front[m];
      }
      if k :| 0 <= k < |t| && t[k].PushVlans? && id in t[k].ids && forall m :: k < m < |t| ==> !t[m].ClearVlans? {
        if k < n {
          assert front[k] == t[k] && forall m :: k < m < n ==> front[m] == t[m];
          assert !t[n].ClearVlans?;
        }
      }
    }
  }

  /** Some live confirmation of a host nests the id. */
  ghost predicate HostConfirms(t: Trace, kind: IdKind, id: Uuid) {
    exists k: nat, h :: LiveHost(t, k, h) && AnswerNests(t[k].response, kind, id)
  }

  /** An id of the given kind comes from the trace: a live confirmation or a VLAN push not cleared since. */
  ghost predicate Confirmed(t: Trace, kind: IdKind, id: Uuid) {
    match kind
    case SubnetId => exists k: nat, s :: LiveSubnet(t, k, s) && t[k].actualSubnet.id == id
    case VlanId => exists k :: 0 <= k < |t| && t[k].PushVlans? && id in t[k].ids
                               && forall m :: k < m < |t| ==> !t[m].ClearVlans?
    case _ => HostConfirms(t, kind, id)
  }

  lemma SubnetIdsExact(t: Trace, id: Uuid)
    ensures Reportable(Run(t), SubnetId, id) <==> Confirmed(t, SubnetId, id)
  {
    if k :| k in Run(t).subnets && Run(t).subnets[k].Created? && Run(t).subnets[k].actual.id == id {
      var e := CreatedSubnetIsLive(t, k);
    }
    if k: nat, s :| LiveSubnet(t, k, s) && t[k].actualSubnet.id == id {
      LiveSubnetIsCreated(t, k, s);
    }
  }

  lemma ReportedWasConfirmed(t: Trace, kind: IdKind, id: Uuid, h: Uuid)
    requires h in Run(t).hosts && Run(t).hosts[h].Created? && Nests(Run(t).hosts[h].actual, kind, id)
    ensures exists k: nat :: LiveHost(t, k, h) && AnswerNests(t[k].response, kind, id)
  {
    var k := CreatedHostIsLive(t, h);
    AnsweredNests(Run(t).hosts[h], h, t[k].response, kind, id);
  }

  lemma ConfirmedIsReported(t: Trace, kind: IdKind, id: Uuid, k: nat, h: Uuid)
    requires LiveHost(t, k, h) && AnswerNests(t[k].response, kind, id)
    ensures h in Run(t).hosts && Run(t).hosts[h].Created? && Nests(Run(t).hosts[h].actual, kind, id)
  {
    LiveHostIsCreated(t, k, h);
    AnsweredNests(Run(t).hosts[h], h, t[k].response, kind, id);
  }

  lemma HostIdsExact(t: Trace, kind: IdKind, id: Uuid)
    ensures HostReports(Run(t), kind, id) <==> HostConfirms(t, kind, id)
  {
    var hosts := Run(t).hosts;
    if h :| h in hosts && hosts[h].Created? && Nests(hosts[h].actual, kind, id) {
      ReportedWasConfirmed(t, kind, id, h);
    }
    if k: nat, h :| LiveHost(t, k, h) && AnswerNests(t[k].response, kind, id) {
      ConfirmedIsReported(t, kind, id, k, h);
    }
  }

  /**
   What the terminal payload reports, exactly, after any interleaving: an id is reported if and only
   if the trace holds a confirmation nesting it that no later push or clear has undone, or, for a
   VLAN, a push not cleared since. With `EntityBuffer.GetScannedIds` this is a law of the whole run.
   */
  lemma ScannedIdsExact(t: Trace, kind: IdKind, id: Uuid)
    ensures Reportable(Run(t), kind, id) <==> Confirmed(t, kind, id)
  {
    if kind == SubnetId {
      SubnetIdsExact(t, id);
    } else if kind == VlanId {
      VlansExact(t, id);
    } else {
      HostIdsExact(t, kind, id);
    }
  }

  // ----- awaiting a confirmation -----

  /** What one turn of an await loop sees: the token, the hosts under the read lock, the clock. */
  datatype Look = Look(cancelled: bool, hosts: HostMap, pastDeadline: bool)

  predicate Decides(l: Look, id: Uuid) {
    l.cancelled || (id in l.hosts && l.hosts[id].Created?) || l.pastDeadline
  }

  /**
   The polling loop of `await_host` over the successive looks it takes, the clock eventually passing
   the deadline. It stops at the first look that decides, and a cancelled look beats a created entry.
   */
  method AwaitHost(id: Uuid, looks: seq<Look>) returns (found: Option<Host>, turn: nat)
    requires exists n :: 0 <= n < |looks| && looks[n].pastDeadline
    ensures turn < |looks| && Decides(looks[turn], id)
    ensures forall n :: 0 <= n < turn ==> !Decides(looks[n], id)
    ensures found.Some? <==> !looks[turn].cancelled && id in looks[turn].hosts && looks[turn].hosts[id].Created?
    ensures found.Some? ==> found.value == looks[turn].hosts[id].actual.host
  {
    turn := 0;
    while true
      invariant turn < |looks|
      invariant forall n :: 0 <= n < turn ==> !Decides(looks[n], id)
      decreases |looks| - turn
    {
      if looks[turn].cancelled {
        return None, turn;
      }
      if id in looks[turn].hosts && looks[turn].hosts[id].Created? {
        return Some(looks[turn].hosts[id].actual.host), turn;
      }
      if looks[turn].pastDeadline {
        return None, turn;
      }
      turn := turn + 1;
    }
  }

  /** In a run, an await only ever returns a host that a live confirmation put there. */
  lemma AwaitedHostWasConfirmed(t: Trace, looks: seq<Look>, at: seq<nat>, turn: nat, id: Uuid)
    requires |at| == |looks| && turn < |looks|
    requires forall n :: 0 <= n < |looks| ==> at[n] <= |t| && looks[n].hosts == Before(t, at[n]).hosts
    requires id in looks[turn].hosts && looks[turn].hosts[id].Created?
    ensures exists k: nat :: LiveHost(t[..at[turn]], k, id) && looks[turn].hosts[id].actual.host == t[k].response.host
  {
    var seen := t[..at[turn]];
    var k := CreatedHostIsLive(seen, id);
    assert seen[k] == t[k];
  }
}
