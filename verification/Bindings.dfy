/**
 Service bindings: a service is present at an address, or listens on a port of one address or of all.
 Requests are atomic steps over the table; the conflict scan and the superseding deletes are loops.
 */
module Bindings {
  import opened Wrappers

  type Id = nat

  datatype BindingType = IpAddress(address: Id) | Port(port: Id, at: Option<Id>)

  datatype Binding = Binding(network: Id, service: Id, kind: BindingType)

  type Table = map<Id, Binding>

  /** An address binding and a port binding that reaches the same address. */
  predicate Conflict(a: BindingType, b: BindingType) {
    match (a, b)
    case (IpAddress(i), Port(_, at)) => at == Some(i) || at == None
    case (Port(_, at), IpAddress(i)) => at == Some(i) || at == None
    case _ => false
  }

  /** The rows a request about `b` looks at: those of its service in its network. */
  predicate Beside(a: Binding, b: Binding) {
    a.network == b.network && a.service == b.service
  }

  /** One branch per kind of the new binding, as the handler has it. */
  predicate Clashes(kind: BindingType, existing: BindingType) {
    match kind
    case IpAddress(i) => existing.Port? && (existing.at == Some(i) || existing.at == None)
    case Port(_, Some(i)) => existing.IpAddress? && existing.address == i
    case Port(_, None) => existing.IpAddress?
  }

  lemma ClashesIsConflict(a: BindingType, b: BindingType)
    ensures Clashes(a, b) == Conflict(a, b) == Conflict(b, a)
  {
  }

  /** No row beside the binding, but for the one it replaces, conflicts with it. */
  ghost predicate Free(t: Table, b: Binding, exclude: Option<Id>) {
    forall k :: k in t && Beside(t[k], b) && exclude != Some(k) ==> !Conflict(t[k].kind, b.kind)
  }

  /** Scans the rows beside the new binding, skipping the one being replaced. */
  method Validate(t: Table, b: Binding, exclude: Option<Id>) returns (ok: bool)
    ensures ok <==> Free(t, b, exclude)
  {
    ok := true;
    var todo := t.Keys;
    while todo != {}
      invariant todo <= t.Keys
      invariant ok ==> Free(t - todo, b, exclude)
      invariant !ok ==> !Free(t, b, exclude)
      decreases |todo|
    {
      var k :| k in todo;
      todo := todo - {k};
      ClashesIsConflict(b.kind, t[k].kind);
      if Beside(t[k], b) && exclude != Some(k) && Clashes(b.kind, t[k].kind) {
        ok := false;
      }
    }
  }

  /** A row an all-addresses port binding makes redundant. */
  predicate Superseded(a: Binding, b: Binding) {
    Beside(a, b) && b.kind.Port? && b.kind.at.None? && a.kind.Port? && a.kind.at.Some? && a.kind.port == b.kind.port
  }

  ghost function Without(t: Table, b: Binding): Table {
    map k | k in t && !Superseded(t[k], b) :: t[k]
  }

  method Supersede(t: Table, b: Binding) returns (r: Table)
    ensures r == Without(t, b)
  {
    r := t;
    var todo := t.Keys;
    while todo != {}
      invariant todo <= t.Keys
      invariant r == map k | k in t && (k in todo || !Superseded(t[k], b)) :: t[k]
      decreases |todo|
    {
      var k :| k in todo;
      todo := todo - {k};
      if Superseded(t[k], b) {
        r := r - {k};
      }
    }
  }

  ghost function Created(t: Table, id: Id, b: Binding): Table {
    Without(t, b)[id := b]
  }

  method Create(t: Table, id: Id, b: Binding) returns (r: Option<Table>)
    requires id !in t
    ensures r == if Free(t, b, None) then Some(Created(t, id, b)) else None
  {
    var ok := Validate(t, b, None);
    if !ok {
      return None;
    }
    var kept := Supersede(t, b);
    r := Some(kept[id := b]);
  }

  /** The path id is the row replaced; the body may name any network and service. */
  method Update(t: Table, id: Id, b: Binding) returns (r: Option<Table>)
    ensures r == if Free(t, b, Some(id)) && id in t then Some(t[id := b]) else None
  {
    var ok := Validate(t, b, Some(id));
    if !ok || id !in t {
      return None;
    }
    r := Some(t[id := b]);
  }

  // ----- runs -----

  datatype Request = CreateReq(id: Id, binding: Binding) | UpdateReq(id: Id, binding: Binding) | DeleteReq(ids: set<Id>)

  ghost function Handle(t: Table, q: Request): Table {
    match q
    case CreateReq(id, b) => if id !in t && Free(t, b, None) then Created(t, id, b) else t
    case UpdateReq(id, b) => if id in t && Free(t, b, Some(id)) then t[id := b] else t
    case DeleteReq(ids) => t - ids
  }

  ghost function After(qs: seq<Request>): Table {
    if qs == [] then map[] else Handle(After(qs[..|qs| - 1]), qs[|qs| - 1])
  }

  ghost predicate ConflictFree(t: Table) {
    forall j, k :: j in t && k in t && j != k && Beside(t[j], t[k]) ==> !Conflict(t[j].kind, t[k].kind)
  }

  /** After any run of requests, no service has conflicting bindings within a network. */
  lemma {:induction false} RunConflictFree(qs: seq<Request>)
    ensures ConflictFree(After(qs))
  {
    if qs != [] {
      RunConflictFree(qs[..|qs| - 1]);
    }
  }

  // ----- across networks -----

  /** No conflicts within a service whatever network its rows name. */
  ghost predicate ServiceFree(t: Table) {
    forall j, k :: j in t && k in t && j != k && t[j].service == t[k].service ==> !Conflict(t[j].kind, t[k].kind)
  }

  /** The scan is per network, so a service named under two networks can end up conflicting. */
  lemma TwoNetworksConflict(a: Binding, b: Binding)
    requires a.service == b.service && a.network != b.network && Conflict(a.kind, b.kind)
    ensures !ServiceFree(After([CreateReq(1, a), CreateReq(2, b)]))
  {
    var one, two := [CreateReq(1, a)], [CreateReq(1, a), CreateReq(2, b)];
    assert one[..0] == [] && two[..1] == one;
    assert After([]) == map[];
    assert After(one) == map[1 := a] by { assert Without(map[], a) == map[]; }
    assert Without(After(one), b) == After(one);
    var r := After(two);
    assert r == Handle(After(one), CreateReq(2, b));
    assert 1 in r && 2 in r && r[1] == a && r[2] == b;
  }

  /** Which services may be named under which networks. */
  type Naming = (Id, Id) -> bool

  predicate Names(q: Request, naming: Naming) {
    q.DeleteReq? || naming(q.binding.service, q.binding.network)
  }

  ghost predicate AllName(qs: seq<Request>, naming: Naming) {
    forall i :: 0 <= i < |qs| ==> Names(qs[i], naming)
  }

  ghost predicate OneNetworkEach(naming: Naming) {
    forall s: Id, n: Id, m: Id :: naming(s, n) && naming(s, m) ==> n == m
  }

  lemma {:induction false} RunKeepsNaming(qs: seq<Request>, naming: Naming)
    requires AllName(qs, naming)
    ensures forall k :: k in After(qs) ==> naming(After(qs)[k].service, After(qs)[k].network)
  {
    if qs != [] {
      RunKeepsNaming(qs[..|qs| - 1], naming);
      assert Names(qs[|qs| - 1], naming);
    }
  }

  lemma NamedOnceIsFree(qs: seq<Request>, naming: Naming)
    requires AllName(qs, naming) && OneNetworkEach(naming)
    ensures ServiceFree(After(qs))
  {
    RunKeepsNaming(qs, naming);
    RunConflictFree(qs);
  }

  /**
   Whole services stay free of conflicts in every run if and only if requests may name each service
   under one network only.
   */
  lemma ServicesStayFreeIff(naming: Naming)
    ensures (forall qs :: AllName(qs, naming) ==> ServiceFree(After(qs))) <==> OneNetworkEach(naming)
  {
    if OneNetworkEach(naming) {
      forall qs | AllName(qs, naming)
        ensures ServiceFree(After(qs))
      {
        NamedOnceIsFree(qs, naming);
      }
    } else {
      var s: Id, n: Id, m: Id :| naming(s, n) && naming(s, m) && n != m;
      var a, b := Binding(n, s, IpAddress(0)), Binding(m, s, Port(0, None));
      TwoNetworksConflict(a, b);
      assert AllName([CreateReq(1, a), CreateReq(2, b)], naming);
    }
  }

  // ----- coverage -----

  /** Service `s` of network `n` is bound to port `p` at address `a`. */
  predicate Covers(b: Binding, n: Id, s: Id, p: Id, a: Id) {
    b.network == n && b.service == s && b.kind.Port? && b.kind.port == p && (b.kind.at == None || b.kind.at == Some(a))
  }

  ghost predicate Covered(t: Table, n: Id, s: Id, p: Id, a: Id) {
    exists k :: k in t && Covers(t[k], n, s, p, a)
  }

  /** The binding says the service is at the address, whatever the port. */
  predicate StandsAt(b: Binding, n: Id, s: Id, a: Id) {
    b.network == n && b.service == s && b.kind.IpAddress? && b.kind.address == a
  }

  /** Two bindings of a service conflict exactly when one stands at an address where the other covers a port. */
  lemma ConflictIffCovered(a: Binding, b: Binding)
    requires Beside(a, b)
    ensures Conflict(a.kind, b.kind) <==>
            exists p: Id, x: Id ::
              || (StandsAt(a, a.network, a.service, x) && Covers(b, a.network, a.service, p, x))
              || (StandsAt(b, a.network, a.service, x) && Covers(a, a.network, a.service, p, x))
  {
    if Conflict(a.kind, b.kind) {
      var (here, there) := if a.kind.IpAddress? then (a, b) else (b, a);
      assert StandsAt(here, a.network, a.service, here.kind.address);
      assert Covers(there, a.network, a.service, there.kind.port, here.kind.address);
    }
  }

  /** A create loses no coverage to its superseding deletes and adds exactly its own. */
  lemma CreateCoverage(t: Table, id: Id, b: Binding, n: Id, s: Id, p: Id, a: Id)
    requires id !in t
    ensures Covered(Created(t, id, b), n, s, p, a) <==> Covered(t, n, s, p, a) || Covers(b, n, s, p, a)
  {
    var r := Created(t, id, b);
    if k :| k in t && Covers(t[k], n, s, p, a) {
      if Superseded(t[k], b) {
        assert Covers(r[id], n, s, p, a);
      } else {
        assert k in r && r[k] == t[k];
      }
    }
    if Covers(b, n, s, p, a) {
      assert r[id] == b;
    }
    if k :| k in r && Covers(r[k], n, s, p, a) {
      assert k == id || (k in t && r[k] == t[k]);
    }
  }

  /** Everything one binding covers the other covers too, and not the other way round. */
  ghost predicate StrictlyWithin(a: Binding, b: Binding) {
    && (forall n: Id, s: Id, p: Id, x: Id :: Covers(a, n, s, p, x) ==> Covers(b, n, s, p, x))
    && (exists n: Id, s: Id, p: Id, x: Id :: Covers(b, n, s, p, x) && !Covers(a, n, s, p, x))
  }

  lemma SupersededIffWithin(a: Binding, b: Binding)
    requires a.kind.Port?
    ensures Superseded(a, b) <==> StrictlyWithin(a, b)
  {
    var x := if a.kind.at.Some? then a.kind.at.value else 0;
    assert Covers(a, a.network, a.service, a.kind.port, x);
    assert a.kind.at.None? ==> Covers(a, a.network, a.service, a.kind.port, x + 1);
    if Superseded(a, b) {
      assert Covers(b, b.network, b.service, b.kind.port, x + 1);
      assert !Covers(a, b.network, b.service, b.kind.port, x + 1);
    }
  }

  /**
   A create deletes exactly the port bindings whose coverage lies strictly within its own, and leaves
   every other row as it was.
   */
  lemma CreateKeepsTheRest(t: Table, id: Id, b: Binding, k: Id)
    requires id !in t && k in t
    ensures k !in Created(t, id, b) <==> t[k].kind.Port? && StrictlyWithin(t[k], b)
    ensures k in Created(t, id, b) ==> Created(t, id, b)[k] == t[k]
  {
    if t[k].kind.Port? {
      SupersededIffWithin(t[k], b);
    }
  }

  // ----- redundant rows -----

  /** No row stands beside one that makes it redundant. */
  ghost predicate Normal(t: Table) {
    forall j, k :: j in t && k in t ==> !Superseded(t[j], t[k])
  }

  /** The request, if accepted, puts no row beside one that makes either redundant and is not deleted. */
  ghost predicate Tidy(t: Table, q: Request) {
    match q
    case CreateReq(id, b) => id !in t && Free(t, b, None) ==> forall k :: k in t ==> !Superseded(b, t[k])
    case UpdateReq(id, b) =>
      id in t && Free(t, b, Some(id)) ==>
        forall k :: k in t && k != id ==> !Superseded(b, t[k]) && !Superseded(t[k], b)
    case DeleteReq(_) => true
  }

  lemma NormalCreateIff(t: Table, id: Id, b: Binding)
    requires Normal(t) && id !in t
    ensures Normal(Created(t, id, b)) <==> forall k :: k in t ==> !Superseded(b, t[k])
  {
    var r := Created(t, id, b);
    assert r[id] == b;
    forall k | k in t && Superseded(b, t[k])
      ensures k in r && r[k] == t[k]
    {
    }
  }

  lemma NormalUpdateIff(t: Table, id: Id, b: Binding)
    requires Normal(t) && id in t
    ensures Normal(t[id := b]) <==> forall k :: k in t && k != id ==> !Superseded(b, t[k]) && !Superseded(t[k], b)
  {
    var r := t[id := b];
    assert r[id] == b;
    forall k | k in t && k != id
      ensures k in r && r[k] == t[k]
    {
    }
  }

  lemma NormalStepIff(t: Table, q: Request)
    requires Normal(t)
    ensures Normal(Handle(t, q)) <==> Tidy(t, q)
  {
    match q {
      case CreateReq(id, b) =>
        if id !in t {
          NormalCreateIff(t, id, b);
        }
      case UpdateReq(id, b) =>
        if id in t {
          NormalUpdateIff(t, id, b);
        }
      case DeleteReq(_) =>
    }
  }

  /** No state of the run has a redundant row. */
  ghost predicate AlwaysNormal(qs: seq<Request>) {
    Normal(After(qs)) && (qs == [] || AlwaysNormal(qs[..|qs| - 1]))
  }

  /** Every request of the run is tidy in the state it meets. */
  ghost predicate AlwaysTidy(qs: seq<Request>) {
    qs == [] || (AlwaysTidy(qs[..|qs| - 1]) && Tidy(After(qs[..|qs| - 1]), qs[|qs| - 1]))
  }

  /** A run never has a redundant row if and only if every request is tidy when it comes. */
  lemma {:induction false} AlwaysNormalIff(qs: seq<Request>)
    ensures AlwaysNormal(qs) <==> AlwaysTidy(qs)
  {
    if qs != [] {
      var front := qs[..|qs| - 1];
      AlwaysNormalIff(front);
      if Normal(After(front)) {
        NormalStepIff(After(front), qs[|qs| - 1]);
      }
    }
  }

  lemma AfterOne(q: Request)
    ensures After([q]) == Handle(map[], q)
  {
    assert [q][..0] == [];
  }

  lemma AfterSnoc(qs: seq<Request>, q: Request)
    ensures After(qs + [q]) == Handle(After(qs), q)
  {
    assert (qs + [q])[..|qs|] == qs;
  }

  /** Creating a port row of one address after the all-addresses row leaves it redundant. */
  lemma LateSpecificIsRedundant(n: Id, s: Id, p: Id, a: Id)
    ensures
      !Normal(After([CreateReq(1, Binding(n, s, Port(p, None)))] + [CreateReq(2, Binding(n, s, Port(p, Some(a))))]))
  {
    var all, one := Binding(n, s, Port(p, None)), Binding(n, s, Port(p, Some(a)));
    AfterOne(CreateReq(1, all));
    var t := After([CreateReq(1, all)]);
    assert 1 in t && t[1] == all && t.Keys == {1};
    AfterSnoc([CreateReq(1, all)], CreateReq(2, one));
    var r := Handle(t, CreateReq(2, one));
    assert 1 in r && 2 in r && r[1] == all && r[2] == one;
  }

  /** Updating a port row to all addresses deletes nothing, so the row of another address is redundant. */
  lemma UpdateSupersedesNothing(t: Table, id: Id, k: Id, b: Binding)
    requires id in t && k in t && k != id && Superseded(t[k], b) && Free(t, b, Some(id))
    ensures k in Handle(t, UpdateReq(id, b)) && !Normal(Handle(t, UpdateReq(id, b)))
  {
    var r := t[id := b];
    assert r[id] == b && r[k] == t[k] && Superseded(r[k], r[id]);
  }

  lemma CreatePort(t: Table, id: Id, n: Id, s: Id, p: Id, a: Id)
    requires id !in t && forall k :: k in t ==> t[k].kind.Port?
    ensures
      var b := Binding(n, s, Port(p, Some(a)));
      Handle(t, CreateReq(id, b)) == t[id := b]
  {
    var b := Binding(n, s, Port(p, Some(a)));
    assert Without(t, b) == t;
  }

  /** A run that does so: two rows of one address each, the first updated to all addresses. */
  lemma WidenedRowIsRedundant(n: Id, s: Id, p: Id, a: Id, b: Id)
    ensures
      var one, two := CreateReq(1, Binding(n, s, Port(p, Some(a)))), CreateReq(2, Binding(n, s, Port(p, Some(b))));
      !Normal(After([one] + [two] + [UpdateReq(1, Binding(n, s, Port(p, None)))]))
  {
    var one, two := CreateReq(1, Binding(n, s, Port(p, Some(a)))), CreateReq(2, Binding(n, s, Port(p, Some(b))));
    var wide := Binding(n, s, Port(p, None));
    AfterOne(one);
    CreatePort(map[], 1, n, s, p, a);
    AfterSnoc([one], two);
    CreatePort(After([one]), 2, n, s, p, b);
    AfterSnoc([one] + [two], UpdateReq(1, wide));
    UpdateSupersedesNothing(After([one] + [two]), 1, 2, wide);
  }
}
