/**
 The daemon's entity buffer: what one critical section of each operation does to the three
 locked collections, and the class whose methods are made of those sections.
 */
module EntityBuffer {
  import opened Wrappers

  type Uuid = nat

  datatype Subnet = Subnet(id: Uuid, content: nat)

  /** An IP address, port or interface record: an id and whatever else the record carries. */
  datatype Child = Child(id: Uuid, content: nat)

  datatype Service = Service(id: Uuid, bindings: seq<Uuid>, content: nat)

  datatype Host = Host(id: Uuid, credentials: seq<Uuid>, content: nat)

  datatype InterfaceDataComplete = InterfaceDataComplete(lldp: bool, cdp: bool, fdb: bool, vlanMembership: bool)

  const ALL_COMPLETE := InterfaceDataComplete(true, true, true, true)

  datatype HostRequest = HostRequest(
    host: Host,
    addresses: seq<Child>,
    ports: seq<Child>,
    services: seq<Service>,
    interfaces: seq<Child>,
    subnets: seq<Subnet>,
    interfacesComplete: bool,
    interfaceDataComplete: InterfaceDataComplete)

  datatype HostResponse = HostResponse(
    host: Host,
    addresses: seq<Child>,
    ports: seq<Child>,
    services: seq<Service>,
    interfaces: seq<Child>)

  datatype Entry<T> = Pending(data: T) | Created(pendingId: Uuid, actual: T)

  type SubnetMap = map<Uuid, Entry<Subnet>>
  type HostMap = map<Uuid, Entry<HostRequest>>

  datatype Buffer = Buffer(subnets: SubnetMap, hosts: HostMap, vlans: set<Uuid>)

  const EMPTY := Buffer(map[], map[], {})

  // ----- critical sections -----

  function InsertSubnet(m: SubnetMap, s: Subnet): SubnetMap {
    m[s.id := Pending(s)]
  }

  function ConfirmSubnet(m: SubnetMap, id: Uuid, actual: Subnet): SubnetMap {
    if id in m then m[id := Created(id, actual)] else m
  }

  /** Children and credential assignments accumulate; everything else of the later request is dropped. */
  function Merge(e: HostRequest, r: HostRequest): HostRequest {
    e.(addresses := e.addresses + r.addresses,
       ports := e.ports + r.ports,
       services := e.services + r.services,
       interfaces := e.interfaces + r.interfaces,
       host := e.host.(credentials := e.host.credentials + r.host.credentials))
  }

  function InsertHost(m: HostMap, r: HostRequest): HostMap {
    var id := r.host.id;
    if id in m && m[id].Pending? then m[id := Pending(Merge(m[id].data, r))] else m[id := Pending(r)]
  }

  /** The request form the server's answer is stored in. */
  function FromResponse(resp: HostResponse): HostRequest {
    HostRequest(resp.host, resp.addresses, resp.ports, resp.services, resp.interfaces, [], true, ALL_COMPLETE)
  }

  /** The entry is the server's answer, field by field, with no subnets and everything called complete. */
  ghost predicate Answered(e: Entry<HostRequest>, id: Uuid, resp: HostResponse) {
    && e.Created? && e.pendingId == id
    && e.actual.host == resp.host
    && e.actual.addresses == resp.addresses && e.actual.ports == resp.ports
    && e.actual.services == resp.services && e.actual.interfaces == resp.interfaces
    && e.actual.subnets == [] && e.actual.interfacesComplete
    && e.actual.interfaceDataComplete == InterfaceDataComplete(true, true, true, true)
  }

  /** Only a pending host is replaced; a host already created keeps its first answer. */
  function ConfirmHost(m: HostMap, id: Uuid, resp: HostResponse): HostMap {
    if id in m && m[id].Pending? then m[id := Created(id, FromResponse(resp))] else m
  }

  // ----- the confirmation handler -----

  datatype Payload = Payload(subnets: seq<(Uuid, Subnet)>, hosts: seq<(Uuid, HostResponse)>)

  function ConfirmSubnets(m: SubnetMap, ps: seq<(Uuid, Subnet)>): SubnetMap {
    if ps == [] then m
    else
      var last := ps[|ps| - 1];
      ConfirmSubnet(ConfirmSubnets(m, ps[..|ps| - 1]), last.0, last.1)
  }

  function ConfirmHosts(m: HostMap, ps: seq<(Uuid, HostResponse)>): HostMap {
    if ps == [] then m
    else
      var last := ps[|ps| - 1];
      ConfirmHost(ConfirmHosts(m, ps[..|ps| - 1]), last.0, last.1)
  }

  function ApplyPayload(b: Buffer, p: Payload): Buffer {
    b.(subnets := ConfirmSubnets(b.subnets, p.subnets), hosts := ConfirmHosts(b.hosts, p.hosts))
  }

  ghost predicate Mentions<T>(ps: seq<(Uuid, T)>, id: Uuid) {
    exists i :: 0 <= i < |ps| && ps[i].0 == id
  }

  ghost predicate IsLast<T>(ps: seq<(Uuid, T)>, id: Uuid, v: T) {
    exists i :: 0 <= i < |ps| && ps[i] == (id, v) && forall j :: i < j < |ps| ==> ps[j].0 != id
  }

  ghost predicate IsFirst<T>(ps: seq<(Uuid, T)>, id: Uuid, v: T) {
    exists i :: 0 <= i < |ps| && ps[i] == (id, v) && forall j :: 0 <= j < i ==> ps[j].0 != id
  }

  /**
   What a whole payload does to one subnet id: nothing to an unknown id; a known id that is
   mentioned ends up created with the last value given for it.
   */
  lemma {:induction false} SubnetsLastWins(m: SubnetMap, ps: seq<(Uuid, Subnet)>, id: Uuid)
    ensures ConfirmSubnets(m, ps).Keys == m.Keys
    ensures id in m && !Mentions(ps, id) ==> ConfirmSubnets(m, ps)[id] == m[id]
    ensures id in m && Mentions(ps, id) ==>
              ConfirmSubnets(m, ps)[id].Created?
              && ConfirmSubnets(m, ps)[id].pendingId == id
              && IsLast(ps, id, ConfirmSubnets(m, ps)[id].actual)
  {
    if ps != [] {
      var front, last := ps[..|ps| - 1], ps[|ps| - 1];
      SubnetsLastWins(m, front, id);
      assert ps == front + [last];
      if last.0 == id {
        assert ps[|ps| - 1] == (id, last.1);
      } else if Mentions(front, id) {
        if id in m {
          var v := ConfirmSubnets(m, front)[id].actual;
          var i :| 0 <= i < |front| && front[i] == (id, v) && forall j :: i < j < |front| ==> front[j].0 != id;
          assert ps[i] == (id, v);
        }
      }
    }
  }

  /** What a whole payload does to one host id: a pending host takes the first answer given for it. */
  lemma {:induction false} HostsFirstWins(m: HostMap, ps: seq<(Uuid, HostResponse)>, id: Uuid)
    ensures ConfirmHosts(m, ps).Keys == m.Keys
    ensures id in m && (m[id].Created? || !Mentions(ps, id)) ==> ConfirmHosts(m, ps)[id] == m[id]
    ensures id in m && m[id].Pending? && Mentions(ps, id) ==>
              exists resp :: IsFirst(ps, id, resp) && Answered(ConfirmHosts(m, ps)[id], id, resp)
  {
    if ps != [] {
      var front, last := ps[..|ps| - 1], ps[|ps| - 1];
      HostsFirstWins(m, front, id);
      assert ps == front + [last];
      if id in m && m[id].Pending? && Mentions(ps, id) {
        if Mentions(front, id) {
          var resp :| IsFirst(front, id, resp) && Answered(ConfirmHosts(m, front)[id], id, resp);
          var i :| 0 <= i < |front| && front[i] == (id, resp) && forall j :: 0 <= j < i ==> front[j].0 != id;
          assert ps[i] == (id, resp);
          assert IsFirst(ps, id, resp);
        } else {
          assert last.0 == id;
          assert ps[|ps| - 1] == (id, last.1);
          assert forall j :: 0 <= j < |front| ==> front[j].0 == ps[j].0;
          assert IsFirst(ps, id, last.1);
        }
      }
    }
  }

  /** Redelivering a whole confirmation payload changes nothing, duplicate ids included. */
  lemma RedeliveryIsIdempotent(b: Buffer, p: Payload)
    ensures ApplyPayload(ApplyPayload(b, p), p) == ApplyPayload(b, p)
  {
    var once := ApplyPayload(b, p);
    var twice := ApplyPayload(once, p);
    SubnetsLastWins(b.subnets, p.subnets, 0);
    SubnetsLastWins(once.subnets, p.subnets, 0);
    forall id | id in once.subnets
      ensures twice.subnets[id] == once.subnets[id]
    {
      SubnetsLastWins(b.subnets, p.subnets, id);
      SubnetsLastWins(once.subnets, p.subnets, id);
    }
    HostsFirstWins(b.hosts, p.hosts, 0);
    HostsFirstWins(once.hosts, p.hosts, 0);
    forall id | id in once.hosts
      ensures twice.hosts[id] == once.hosts[id]
    {
      HostsFirstWins(b.hosts, p.hosts, id);
      HostsFirstWins(once.hosts, p.hosts, id);
    }
    assert twice.subnets == once.subnets;
    assert twice.hosts == once.hosts;
  }

  // ----- reading a map in its own order -----

  /** `keys` lists the set, each element once; the order is the map's own. */
  ghost predicate Enumerates(keys: seq<Uuid>, of: set<Uuid>) {
    && (forall i, j :: 0 <= i < j < |keys| ==> keys[i] != keys[j])
    && (forall k :: k in keys <==> k in of)
  }

  lemma EnumeratesMore(keys: seq<Uuid>, of: set<Uuid>, k: Uuid)
    requires Enumerates(keys, of) && k !in of
    ensures Enumerates(keys + [k], of + {k})
  {
  }

  function PendingKeys<T>(m: map<Uuid, Entry<T>>): set<Uuid> {
    set k | k in m && m[k].Pending?
  }

  function CreatedKeys<T>(m: map<Uuid, Entry<T>>): set<Uuid> {
    set k | k in m && m[k].Created?
  }

  /** What a poll ships: the pending hosts and subnets, as values. */
  datatype BufferedEntities = BufferedEntities(hosts: seq<HostRequest>, subnets: seq<Subnet>)

  ghost predicate DataAt<T>(m: map<Uuid, Entry<T>>, keys: seq<Uuid>, out: seq<T>) {
    |out| == |keys| && forall i :: 0 <= i < |keys| ==> keys[i] in m && m[keys[i]] == Pending(out[i])
  }

  /** The pending values, one for each pending key. */
  ghost predicate ListsPending<T(!new)>(m: map<Uuid, Entry<T>>, out: seq<T>) {
    exists keys :: Enumerates(keys, PendingKeys(m)) && DataAt(m, keys, out)
  }

  lemma DataAtMore<T>(m: map<Uuid, Entry<T>>, keys: seq<Uuid>, out: seq<T>, k: Uuid)
    requires DataAt(m, keys, out) && k in m && m[k].Pending?
    ensures DataAt(m, keys + [k], out + [m[k].data])
  {
  }

  method CollectPending<T(!new)>(m: map<Uuid, Entry<T>>) returns (out: seq<T>)
    ensures ListsPending(m, out)
  {
    out := [];
    var todo := m.Keys;
    ghost var keys, done: set<Uuid> := [], {};
    while todo != {}
      invariant todo <= m.Keys && done == PendingKeys(m) - todo
      invariant Enumerates(keys, done) && DataAt(m, keys, out)
      decreases |todo|
    {
      var k :| k in todo;
      todo := todo - {k};
      if m[k].Pending? {
        EnumeratesMore(keys, done, k);
        DataAtMore(m, keys, out, k);
        out, keys, done := out + [m[k].data], keys + [k], done + {k};
      }
    }
    assert done == PendingKeys(m);
  }

  // ----- ids reported at the end of a session -----

  datatype ScannedIds = ScannedIds(
    subnets: seq<Uuid>, hosts: seq<Uuid>, addresses: seq<Uuid>, ports: seq<Uuid>,
    services: seq<Uuid>, bindings: seq<Uuid>, interfaces: seq<Uuid>, vlans: seq<Uuid>)

  datatype IdKind = SubnetId | HostId | AddressId | PortId | ServiceId | BindingId | InterfaceId | VlanId

  function IdsOf(s: ScannedIds, kind: IdKind): seq<Uuid> {
    match kind
    case SubnetId => s.subnets
    case HostId => s.hosts
    case AddressId => s.addresses
    case PortId => s.ports
    case ServiceId => s.services
    case BindingId => s.bindings
    case InterfaceId => s.interfaces
    case VlanId => s.vlans
  }

  /** Whether a stored host nests `id` as an id of the given kind. */
  ghost predicate Nests(r: HostRequest, kind: IdKind, id: Uuid) {
    match kind
    case HostId => r.host.id == id
    case AddressId => exists c :: c in r.addresses && c.id == id
    case PortId => exists c :: c in r.ports && c.id == id
    case ServiceId => exists s :: s in r.services && s.id == id
    case BindingId => exists s :: s in r.services && id in s.bindings
    case InterfaceId => exists c :: c in r.interfaces && c.id == id
    case SubnetId => false
    case VlanId => false
  }

  /** Whether the server's answer for a host nests `id` as an id of the given kind. */
  ghost predicate AnswerNests(resp: HostResponse, kind: IdKind, id: Uuid) {
    match kind
    case HostId => resp.host.id == id
    case AddressId => exists c :: c in resp.addresses && c.id == id
    case PortId => exists c :: c in resp.ports && c.id == id
    case ServiceId => exists s :: s in resp.services && s.id == id
    case BindingId => exists s :: s in resp.services && id in s.bindings
    case InterfaceId => exists c :: c in resp.interfaces && c.id == id
    case SubnetId => false
    case VlanId => false
  }

  lemma AnsweredNests(e: Entry<HostRequest>, h: Uuid, resp: HostResponse, kind: IdKind, id: Uuid)
    requires Answered(e, h, resp)
    ensures Nests(e.actual, kind, id) <==> AnswerNests(resp, kind, id)
  {
  }

  /** Some created host nests the id. */
  ghost predicate HostReports(b: Buffer, kind: IdKind, id: Uuid) {
    exists k :: k in b.hosts && b.hosts[k].Created? && Nests(b.hosts[k].actual, kind, id)
  }

  /** What the buffer has to report, kind by kind. */
  ghost predicate Reportable(b: Buffer, kind: IdKind, id: Uuid) {
    match kind
    case SubnetId => exists k :: k in b.subnets && b.subnets[k].Created? && b.subnets[k].actual.id == id
    case VlanId => id in b.vlans
    case _ => HostReports(b, kind, id)
  }

  function ChildIds(cs: seq<Child>): (ids: seq<Uuid>)
    ensures |ids| == |cs| && forall i :: 0 <= i < |cs| ==> ids[i] == cs[i].id
    ensures forall id :: id in ids <==> exists c :: c in cs && c.id == id
  {
    if cs == [] then [] else ChildIds(cs[..|cs| - 1]) + [cs[|cs| - 1].id]
  }

  function ServiceIds(ss: seq<Service>): (ids: seq<Uuid>)
    ensures |ids| == |ss| && forall i :: 0 <= i < |ss| ==> ids[i] == ss[i].id
    ensures forall id :: id in ids <==> exists s :: s in ss && s.id == id
  {
    if ss == [] then [] else ServiceIds(ss[..|ss| - 1]) + [ss[|ss| - 1].id]
  }

  function BindingIds(ss: seq<Service>): (ids: seq<Uuid>)
    ensures forall id :: id in ids <==> exists s :: s in ss && id in s.bindings
  {
    if ss == [] then [] else BindingIds(ss[..|ss| - 1]) + ss[|ss| - 1].bindings
  }

  const NO_IDS := ScannedIds([], [], [], [], [], [], [], [])

  /** The ids one created host contributes, in the order of its lists. */
  function HostIds(r: HostRequest): ScannedIds {
    ScannedIds([], [r.host.id], ChildIds(r.addresses), ChildIds(r.ports),
               ServiceIds(r.services), BindingIds(r.services), ChildIds(r.interfaces), [])
  }

  function Joined(a: ScannedIds, b: ScannedIds): ScannedIds {
    ScannedIds(a.subnets + b.subnets, a.hosts + b.hosts, a.addresses + b.addresses, a.ports + b.ports,
               a.services + b.services, a.bindings + b.bindings, a.interfaces + b.interfaces, a.vlans + b.vlans)
  }

  lemma JoinedHas(a: ScannedIds, b: ScannedIds, kind: IdKind, id: Uuid)
    ensures id in IdsOf(Joined(a, b), kind) <==> id in IdsOf(a, kind) || id in IdsOf(b, kind)
  {
  }

  lemma HostIdsNest(r: HostRequest, kind: IdKind, id: Uuid)
    ensures id in IdsOf(HostIds(r), kind) <==> Nests(r, kind, id)
  {
  }

  ghost predicate AllCreated<T>(m: map<Uuid, Entry<T>>, keys: seq<Uuid>) {
    forall i :: 0 <= i < |keys| ==> keys[i] in m && m[keys[i]].Created?
  }

  /** The ids of the created hosts under the given keys, host by host. */
  ghost function HostIdsAt(m: HostMap, keys: seq<Uuid>): ScannedIds
    requires AllCreated(m, keys)
  {
    if keys == [] then NO_IDS
    else
      var n := |keys| - 1;
      Joined(HostIdsAt(m, keys[..n]), HostIds(m[keys[n]].actual))
  }

  ghost function SubnetIdsAt(m: SubnetMap, keys: seq<Uuid>): seq<Uuid>
    requires AllCreated(m, keys)
  {
    if keys == [] then []
    else
      var n := |keys| - 1;
      SubnetIdsAt(m, keys[..n]) + [m[keys[n]].actual.id]
  }

  /** The created hosts' ids, each host once. */
  ghost predicate ListsHostIds(m: HostMap, out: ScannedIds) {
    exists keys :: Enumerates(keys, CreatedKeys(m)) && AllCreated(m, keys) && out == HostIdsAt(m, keys)
  }

  ghost predicate ListsSubnetIds(m: SubnetMap, out: seq<Uuid>) {
    exists keys :: Enumerates(keys, CreatedKeys(m)) && AllCreated(m, keys) && out == SubnetIdsAt(m, keys)
  }

  /** One of the hosts under the given keys nests the id. */
  ghost predicate SomeNests(m: HostMap, keys: seq<Uuid>, kind: IdKind, id: Uuid) {
    exists i :: 0 <= i < |keys| && keys[i] in m && m[keys[i]].Created? && Nests(m[keys[i]].actual, kind, id)
  }

  lemma SomeNestsSnoc(m: HostMap, keys: seq<Uuid>, kind: IdKind, id: Uuid)
    requires AllCreated(m, keys) && keys != []
    ensures
      var n := |keys| - 1;
      SomeNests(m, keys, kind, id) <==> SomeNests(m, keys[..n], kind, id) || Nests(m[keys[n]].actual, kind, id)
  {
  }

  lemma {:induction false} HostIdsHave(m: HostMap, keys: seq<Uuid>, kind: IdKind, id: Uuid)
    requires AllCreated(m, keys)
    ensures id in IdsOf(HostIdsAt(m, keys), kind) <==> SomeNests(m, keys, kind, id)
  {
    if keys != [] {
      var n := |keys| - 1;
      HostIdsHave(m, keys[..n], kind, id);
      HostIdsNest(m[keys[n]].actual, kind, id);
      JoinedHas(HostIdsAt(m, keys[..n]), HostIds(m[keys[n]].actual), kind, id);
      SomeNestsSnoc(m, keys, kind, id);
    }
  }

  lemma {:induction false} SubnetIdsHave(m: SubnetMap, keys: seq<Uuid>, id: Uuid)
    requires AllCreated(m, keys)
    ensures id in SubnetIdsAt(m, keys) <==> exists k :: k in keys && k in m && m[k].Created? && m[k].actual.id == id
  {
    if keys != [] {
      var n := |keys| - 1;
      SubnetIdsHave(m, keys[..n], id);
      assert keys == keys[..n] + [keys[n]];
    }
  }

  lemma ListedHostIds(m: HostMap, out: ScannedIds, kind: IdKind, id: Uuid)
    requires ListsHostIds(m, out)
    ensures id in IdsOf(out, kind) <==> exists k :: k in m && m[k].Created? && Nests(m[k].actual, kind, id)
  {
    var keys :| Enumerates(keys, CreatedKeys(m)) && AllCreated(m, keys) && out == HostIdsAt(m, keys);
    HostIdsHave(m, keys, kind, id);
    if k :| k in m && m[k].Created? && Nests(m[k].actual, kind, id) {
      assert k in CreatedKeys(m) && k in keys;
      var i :| 0 <= i < |keys| && keys[i] == k;
    }
  }

  lemma ListedSubnetIds(m: SubnetMap, out: seq<Uuid>, id: Uuid)
    requires ListsSubnetIds(m, out)
    ensures id in out <==> exists k :: k in m && m[k].Created? && m[k].actual.id == id
  {
    var keys :| Enumerates(keys, CreatedKeys(m)) && AllCreated(m, keys) && out == SubnetIdsAt(m, keys);
    SubnetIdsHave(m, keys, id);
    if k :| k in m && m[k].Created? && m[k].actual.id == id {
      assert k in CreatedKeys(m) && k in keys;
    }
  }

  lemma {:induction false} HostIdsAreInner(m: HostMap, keys: seq<Uuid>)
    requires AllCreated(m, keys)
    ensures HostIdsAt(m, keys).subnets == [] && HostIdsAt(m, keys).vlans == []
  {
    if keys != [] {
      HostIdsAreInner(m, keys[..|keys| - 1]);
    }
  }

  lemma NoOuterIds(m: HostMap, out: ScannedIds)
    requires ListsHostIds(m, out)
    ensures out.subnets == [] && out.vlans == []
  {
    var keys :| Enumerates(keys, CreatedKeys(m)) && AllCreated(m, keys) && out == HostIdsAt(m, keys);
    HostIdsAreInner(m, keys);
  }

  lemma HostIdsSnoc(m: HostMap, keys: seq<Uuid>, k: Uuid)
    requires AllCreated(m, keys) && k in m && m[k].Created?
    ensures AllCreated(m, keys + [k]) && HostIdsAt(m, keys + [k]) == Joined(HostIdsAt(m, keys), HostIds(m[k].actual))
  {
  }

  lemma SubnetIdsSnoc(m: SubnetMap, keys: seq<Uuid>, k: Uuid)
    requires AllCreated(m, keys) && k in m && m[k].Created?
    ensures AllCreated(m, keys + [k]) && SubnetIdsAt(m, keys + [k]) == SubnetIdsAt(m, keys) + [m[k].actual.id]
  {
  }

  method CollectSubnetIds(m: SubnetMap) returns (ids: seq<Uuid>)
    ensures ListsSubnetIds(m, ids)
  {
    ids := [];
    var todo := m.Keys;
    ghost var keys, done: set<Uuid> := [], {};
    while todo != {}
      invariant todo <= m.Keys && done == CreatedKeys(m) - todo
      invariant Enumerates(keys, done) && AllCreated(m, keys) && ids == SubnetIdsAt(m, keys)
      decreases |todo|
    {
      var k :| k in todo;
      todo := todo - {k};
      if m[k].Created? {
        EnumeratesMore(keys, done, k);
        SubnetIdsSnoc(m, keys, k);
        ids, keys, done := ids + [m[k].actual.id], keys + [k], done + {k};
      }
    }
    assert done == CreatedKeys(m);
  }

  method CollectHostIds(m: HostMap) returns (out: ScannedIds)
    ensures ListsHostIds(m, out)
  {
    out := NO_IDS;
    var todo := m.Keys;
    ghost var keys, done: set<Uuid> := [], {};
    while todo != {}
      invariant todo <= m.Keys && done == CreatedKeys(m) - todo
      invariant Enumerates(keys, done) && AllCreated(m, keys) && out == HostIdsAt(m, keys)
      decreases |todo|
    {
      var k :| k in todo;
      todo := todo - {k};
      if m[k].Created? {
        EnumeratesMore(keys, done, k);
        HostIdsSnoc(m, keys, k);
        out := Joined(out, HostIds(m[k].actual));
        keys, done := keys + [k], done + {k};
      }
    }
    assert done == CreatedKeys(m);
  }

  method CollectVlanIds(ids: set<Uuid>) returns (out: seq<Uuid>)
    ensures Enumerates(out, ids)
  {
    out := [];
    var todo := ids;
    while todo != {}
      invariant todo <= ids && Enumerates(out, ids - todo)
      decreases |todo|
    {
      var k :| k in todo;
      EnumeratesMore(out, ids - todo, k);
      assert ids - (todo - {k}) == ids - todo + {k};
      todo := todo - {k};
      out := out + [k];
    }
    assert ids - todo == ids;
  }

  lemma ReportsAll(b: Buffer, nested: ScannedIds, subnetIds: seq<Uuid>, vlanIds: seq<Uuid>, kind: IdKind, id: Uuid)
    requires ListsHostIds(b.hosts, nested) && ListsSubnetIds(b.subnets, subnetIds) && Enumerates(vlanIds, b.vlans)
    ensures id in IdsOf(nested.(subnets := subnetIds, vlans := vlanIds), kind) <==> Reportable(b, kind, id)
  {
    if kind == SubnetId {
      ListedSubnetIds(b.subnets, subnetIds, id);
    } else if kind != VlanId {
      assert IdsOf(nested.(subnets := subnetIds, vlans := vlanIds), kind) == IdsOf(nested, kind);
      ListedHostIds(b.hosts, nested, kind, id);
    }
  }

  // ----- the buffer object -----

  class EntityBuffer {
    var subnets: SubnetMap
    var hosts: HostMap
    var vlans: set<Uuid>

    ghost function State(): Buffer
      reads this
    {
      Buffer(subnets, hosts, vlans)
    }

    constructor ()
      ensures State() == EMPTY
    {
      subnets, hosts, vlans := map[], map[], {};
    }

    method PushSubnet(s: Subnet)
      modifies this`subnets
      ensures subnets == InsertSubnet(old(subnets), s)
    {
      subnets := subnets[s.id := Pending(s)];
    }

    /** Returns the id mapping when the server deduplicated the subnet onto another id. */
    method MarkSubnetCreated(pendingId: Uuid, actual: Subnet) returns (changed: Option<(Uuid, Uuid)>)
      modifies this`subnets
      ensures subnets == ConfirmSubnet(old(subnets), pendingId, actual)
      ensures changed == if pendingId in old(subnets) && pendingId != actual.id
                         then Some((pendingId, actual.id)) else None
    {
      changed := None;
      if pendingId in subnets {
        subnets := subnets[pendingId := Created(pendingId, actual)];
        if pendingId != actual.id {
          changed := Some((pendingId, actual.id));
        }
      }
    }

    method PushHost(r: HostRequest)
      modifies this`hosts
      ensures hosts == InsertHost(old(hosts), r)
    {
      var id := r.host.id;
      if id in hosts && hosts[id].Pending? {
        var existing := hosts[id].data;
        existing := existing.(addresses := existing.addresses + r.addresses);
        existing := existing.(ports := existing.ports + r.ports);
        existing := existing.(services := existing.services + r.services);
        existing := existing.(interfaces := existing.interfaces + r.interfaces);
        existing := existing.(host := existing.host.(credentials := existing.host.credentials + r.host.credentials));
        hosts := hosts[id := Pending(existing)];
      } else {
        hosts := hosts[id := Pending(r)];
      }
    }

    method MarkHostCreated(pendingId: Uuid, actual: HostResponse)
      modifies this`hosts
      ensures hosts == ConfirmHost(old(hosts), pendingId, actual)
      ensures hosts.Keys == old(hosts).Keys && forall k :: k in hosts && k != pendingId ==> hosts[k] == old(hosts)[k]
      ensures pendingId in hosts && old(hosts)[pendingId].Pending? ==>
                var e := hosts[pendingId];
                && e.Created? && e.pendingId == pendingId && e.actual.host == actual.host
                && e.actual.addresses == actual.addresses && e.actual.ports == actual.ports
                && e.actual.services == actual.services && e.actual.interfaces == actual.interfaces
                && e.actual.subnets == [] && e.actual.interfacesComplete
                && e.actual.interfaceDataComplete == InterfaceDataComplete(true, true, true, true)
      ensures pendingId in hosts && old(hosts)[pendingId].Created? ==> hosts[pendingId] == old(hosts)[pendingId]
    {
      if pendingId in hosts {
        if hosts[pendingId].Pending? {
          hosts := hosts[pendingId := Created(pendingId, FromResponse(actual))];
        }
      }
    }

    method PushScannedVlans(ids: set<Uuid>)
      modifies this`vlans
      ensures vlans == old(vlans) + ids
    {
      vlans := vlans + ids;
    }

    method ClearAll()
      modifies this
      ensures State() == EMPTY
    {
      hosts := map[];
      subnets := map[];
      vlans := {};
    }

    /** The body of the entities-created handler: subnets in payload order, then hosts. */
    method ReceiveCreatedEntities(p: Payload)
      modifies this`subnets, this`hosts
      ensures State() == ApplyPayload(old(State()), p)
    {
      for i := 0 to |p.subnets|
        invariant subnets == ConfirmSubnets(old(subnets), p.subnets[..i])
        invariant hosts == old(hosts)
      {
        assert p.subnets[..i + 1][..i] == p.subnets[..i];
        var _ := MarkSubnetCreated(p.subnets[i].0, p.subnets[i].1);
      }
      assert p.subnets[..|p.subnets|] == p.subnets;
      for i := 0 to |p.hosts|
        invariant hosts == ConfirmHosts(old(hosts), p.hosts[..i])
        invariant subnets == ConfirmSubnets(old(subnets), p.subnets)
      {
        assert p.hosts[..i + 1][..i] == p.hosts[..i];
        MarkHostCreated(p.hosts[i].0, p.hosts[i].1);
      }
      assert p.hosts[..|p.hosts|] == p.hosts;
    }

    /** A non-destructive snapshot: every pending entity, each once, in the map's own order. */
    method GetPending() returns (out: BufferedEntities)
      ensures ListsPending(hosts, out.hosts)
      ensures ListsPending(subnets, out.subnets)
    {
      var hs := CollectPending(hosts);
      var ss := CollectPending(subnets);
      out := BufferedEntities(hs, ss);
    }

    /** Every id confirmed or recorded in the buffer, as often as it is held, and no other. */
    method GetScannedIds() returns (out: ScannedIds)
      ensures ListsSubnetIds(subnets, out.subnets) && Enumerates(out.vlans, vlans)
      ensures ListsHostIds(hosts, out.(subnets := [], vlans := []))
      ensures forall kind, id :: id in IdsOf(out, kind) <==> Reportable(State(), kind, id)
    {
      var subnetIds := CollectSubnetIds(subnets);
      var nested := CollectHostIds(hosts);
      var vlanIds := CollectVlanIds(vlans);
      out := nested.(subnets := subnetIds, vlans := vlanIds);
      NoOuterIds(hosts, nested);
      assert out.(subnets := [], vlans := []) == nested;
      forall kind, id
        ensures id in IdsOf(out, kind) <==> Reportable(State(), kind, id)
      {
        ReportsAll(State(), nested, subnetIds, vlanIds, kind, id);
      }
    }
  }
}
