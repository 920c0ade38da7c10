/**
 The subnets the host sees merged with those the container runtime reports: the host wins on
 identity, a container bridge on type and owner.
 */
module SubnetMerge {
  import opened Wrappers
  import opened Interfaces
  import opened Subsequences

  datatype SubnetType = DockerBridge | PodmanBridge | OtherType(name: string)

  datatype Subnet = Subnet(id: nat, cidr: Cidr, kind: SubnetType, owner: Option<nat>)

  predicate IsBridge(s: Subnet) {
    s.kind == DockerBridge || s.kind == PodmanBridge
  }

  function Cidrs(ss: seq<Subnet>): set<Cidr> {
    set s | s in ss :: s.cidr
  }

  /** Those with a CIDR outside `taken`, in order. */
  function Outside(ss: seq<Subnet>, taken: set<Cidr>): seq<Subnet> {
    if ss == [] then []
    else
      var front, s := Outside(ss[..|ss| - 1], taken), ss[|ss| - 1];
      if s.cidr in taken then front else front + [s]
  }

  /** The last bridge with the CIDR. */
  ghost predicate LastBridge(ss: seq<Subnet>, c: Cidr, k: nat) {
    && k < |ss| && IsBridge(ss[k]) && ss[k].cidr == c
    && forall j :: k < j < |ss| ==> !(IsBridge(ss[j]) && ss[j].cidr == c)
  }

  ghost predicate HasBridge(ss: seq<Subnet>, c: Cidr) {
    exists k :: 0 <= k < |ss| && IsBridge(ss[k]) && ss[k].cidr == c
  }

  ghost predicate FirstOfItsCidr(ss: seq<Subnet>, i: nat) {
    i < |ss| && forall j :: 0 <= j < i ==> ss[j].cidr != ss[i].cidr
  }

  type Authority = map<Cidr, Subnet>

  /** What the filtering pass over `ss` has learned about the host's CIDRs. */
  ghost predicate Learned(auth: Authority, taken: set<Cidr>, ss: seq<Subnet>) {
    && (forall c :: c in auth ==> c in taken && exists k: nat :: LastBridge(ss, c, k) && ss[k] == auth[c])
    && (forall c :: c in taken && HasBridge(ss, c) ==> c in auth)
  }

  function Learn(auth: Authority, taken: set<Cidr>, s: Subnet): Authority {
    if s.cidr in taken && IsBridge(s) then auth[s.cidr := s] else auth
  }

  lemma LearnsOne(auth: Authority, taken: set<Cidr>, ss: seq<Subnet>, s: Subnet)
    requires Learned(auth, taken, ss)
    ensures Learned(Learn(auth, taken, s), taken, ss + [s])
  {
    var next, all := Learn(auth, taken, s), ss + [s];
    assert all[|ss|] == s;
    forall c | c in next
      ensures c in taken && exists k: nat :: LastBridge(all, c, k) && all[k] == next[c]
    {
      if s.cidr == c && IsBridge(s) {
        assert LastBridge(all, c, |ss|);
      } else {
        var k: nat :| LastBridge(ss, c, k) && ss[k] == auth[c];
        assert LastBridge(all, c, k) && all[k] == ss[k];
      }
    }
    forall c | c in taken && HasBridge(all, c)
      ensures c in next
    {
      var k :| 0 <= k < |all| && IsBridge(all[k]) && all[k].cidr == c;
      if k < |ss| {
        assert ss[k] == all[k] && HasBridge(ss, c);
      }
    }
  }

  method Filter(ss: seq<Subnet>, taken: set<Cidr>) returns (rest: seq<Subnet>, auth: Authority)
    ensures rest == Outside(ss, taken)
    ensures Learned(auth, taken, ss)
  {
    rest, auth := [], map[];
    for i := 0 to |ss|
      invariant rest == Outside(ss[..i], taken)
      invariant Learned(auth, taken, ss[..i])
    {
      LearnsOne(auth, taken, ss[..i], ss[i]);
      assert ss[..i + 1] == ss[..i] + [ss[i]];
      if ss[i].cidr in taken {
        if IsBridge(ss[i]) {
          auth := auth[ss[i].cidr := ss[i]];
        }
      } else {
        rest := rest + [ss[i]];
      }
    }
    assert ss[..|ss|] == ss;
  }

  /**
   What becomes of the host's `i`-th subnet: the last bridge with its CIDR gives it type and owner, if
   there is one and no earlier host subnet had the CIDR; everything else of it stays.
   */
  ghost predicate Merged(host: seq<Subnet>, docker: seq<Subnet>, i: nat, s: Subnet)
    requires i < |host|
  {
    && s.id == host[i].id && s.cidr == host[i].cidr
    && (!(FirstOfItsCidr(host, i) && HasBridge(docker, s.cidr)) ==> s == host[i])
    && (forall k: nat :: LastBridge(docker, s.cidr, k) && FirstOfItsCidr(host, i) ==>
          s.kind == docker[k].kind && s.owner == docker[k].owner)
  }

  /** The host's `i`-th subnet with what is remembered of its CIDR, if it is the first with that CIDR. */
  ghost function Adopted(host: seq<Subnet>, auth: Authority, i: nat): Subnet
    requires i < |host|
  {
    var s := host[i];
    if s.cidr in auth && FirstOfItsCidr(host, i) then s.(kind := auth[s.cidr].kind, owner := auth[s.cidr].owner) else s
  }

  lemma AdoptMerges(host: seq<Subnet>, docker: seq<Subnet>, auth: Authority, i: nat)
    requires i < |host| && Learned(auth, Cidrs(host), docker)
    ensures Merged(host, docker, i, Adopted(host, auth, i))
  {
  }

  lemma CidrsSnoc(host: seq<Subnet>, i: nat)
    requires i < |host|
    ensures Cidrs(host[..i + 1]) == Cidrs(host[..i]) + {host[i].cidr}
    ensures FirstOfItsCidr(host, i) <==> host[i].cidr !in Cidrs(host[..i])
  {
  }

  method Adopt(host: seq<Subnet>, authority: Authority, ghost docker: seq<Subnet>) returns (kept: seq<Subnet>)
    requires Learned(authority, Cidrs(host), docker)
    ensures |kept| == |host|
    ensures forall i :: 0 <= i < |host| ==> Merged(host, docker, i, kept[i])
  {
    kept := [];
    var auth := authority;
    for i := 0 to |host|
      invariant |kept| == i
      invariant forall k :: 0 <= k < i ==> Merged(host, docker, k, kept[k])
      invariant auth == authority - Cidrs(host[..i])
    {
      var s := host[i];
      AdoptMerges(host, docker, authority, i);
      CidrsSnoc(host, i);
      if s.cidr in auth {
        s := s.(kind := auth[s.cidr].kind, owner := auth[s.cidr].owner);
        auth := auth - {s.cidr};
      }
      assert s == Adopted(host, authority, i);
      kept := kept + [s];
    }
  }

  /** The host's subnets come first and in order; container subnets with other CIDRs follow in order. */
  ghost predicate IsMerge(host: seq<Subnet>, docker: seq<Subnet>, r: seq<Subnet>) {
    && |r| >= |host|
    && (forall i :: 0 <= i < |host| ==> Merged(host, docker, i, r[i]))
    && r[|host|..] == Outside(docker, Cidrs(host))
  }

  method Merge(host: seq<Subnet>, docker: seq<Subnet>) returns (r: seq<Subnet>)
    ensures IsMerge(host, docker, r)
  {
    var rest, auth := Filter(docker, Cidrs(host));
    var kept := Adopt(host, auth, docker);
    r := kept + rest;
    assert r[..|host|] == kept && r[|host|..] == rest;
  }

  // ----- what the merge means -----

  lemma {:induction false} HasLastBridge(ss: seq<Subnet>, c: Cidr)
    requires HasBridge(ss, c)
    ensures exists k: nat :: LastBridge(ss, c, k)
  {
    var n := |ss| - 1;
    if IsBridge(ss[n]) && ss[n].cidr == c {
      assert LastBridge(ss, c, n);
    } else {
      var k :| 0 <= k < |ss| && IsBridge(ss[k]) && ss[k].cidr == c;
      assert ss[..n][k] == ss[k];
      HasLastBridge(ss[..n], c);
      var l: nat :| LastBridge(ss[..n], c, l);
      assert LastBridge(ss, c, l);
    }
  }

  /** A Docker or Podman bridge, and nothing else, gives its type and owner: the last with the host subnet's CIDR. */
  lemma LastBridgeDecides(host: seq<Subnet>, docker: seq<Subnet>, r: seq<Subnet>, i: nat, k: nat)
    requires IsMerge(host, docker, r) && i < |host| && k < |docker| && docker[k].cidr == host[i].cidr
    requires forall j :: 0 <= j < i ==> host[j].cidr != host[i].cidr
    requires docker[k].kind == DockerBridge || docker[k].kind == PodmanBridge
    requires forall j :: k < j < |docker| && docker[j].cidr == host[i].cidr ==>
               docker[j].kind != DockerBridge && docker[j].kind != PodmanBridge
    ensures r[i] == host[i].(kind := docker[k].kind, owner := docker[k].owner)
  {
    assert Merged(host, docker, i, r[i]);
    assert LastBridge(docker, host[i].cidr, k) && FirstOfItsCidr(host, i);
  }

  /** Without one the host subnet is left as it was. */
  lemma NoBridgeChangesNothing(host: seq<Subnet>, docker: seq<Subnet>, r: seq<Subnet>, i: nat)
    requires IsMerge(host, docker, r) && i < |host|
    requires forall j :: 0 <= j < |docker| && docker[j].cidr == host[i].cidr ==>
               docker[j].kind != DockerBridge && docker[j].kind != PodmanBridge
    ensures r[i] == host[i]
  {
    assert Merged(host, docker, i, r[i]);
  }

  /** `at` holds the places of the subnets with a CIDR outside `taken`. */
  ghost predicate Those(ss: seq<Subnet>, at: seq<nat>, taken: set<Cidr>) {
    forall k :: 0 <= k < |ss| ==> (k in at <==> ss[k].cidr !in taken)
  }

  lemma ThoseSnoc(ss: seq<Subnet>, at: seq<nat>, taken: set<Cidr>)
    requires ss != [] && Those(ss[..|ss| - 1], at, taken) && Increasing(at, |ss| - 1)
    ensures Those(ss, if ss[|ss| - 1].cidr !in taken then at + [|ss| - 1] else at, taken)
  {
    var n := |ss| - 1;
    forall k | 0 <= k < n
      ensures k in at <==> ss[k].cidr !in taken
    {
      assert ss[..n][k] == ss[k];
    }
  }

  /** The container subnets that follow are, in order, exactly those whose CIDR no host subnet has. */
  lemma {:induction false} OutsideInOrder(ss: seq<Subnet>, taken: set<Cidr>) returns (at: seq<nat>)
    ensures Picks(ss, at, Outside(ss, taken)) && Those(ss, at, taken)
  {
    if ss == [] {
      at := [];
    } else {
      var n := |ss| - 1;
      at := OutsideInOrder(ss[..n], taken);
      PicksSnoc(ss, at, Outside(ss[..n], taken));
      ThoseSnoc(ss, at, taken);
      if ss[n].cidr !in taken {
        at := at + [n];
      }
    }
  }

  predicate Distinct(ss: seq<Subnet>) {
    forall i, j :: 0 <= i < j < |ss| ==> ss[i].cidr != ss[j].cidr
  }

  /** With distinct host CIDRs, a host subnet is a bridge's exactly when some container bridge shares its CIDR. */
  lemma HostSubnetMerged(host: seq<Subnet>, docker: seq<Subnet>, r: seq<Subnet>, i: nat)
    requires IsMerge(host, docker, r) && i < |host| && Distinct(host)
    ensures r[i].id == host[i].id && r[i].cidr == host[i].cidr
    ensures !HasBridge(docker, host[i].cidr) ==> r[i] == host[i]
    ensures HasBridge(docker, host[i].cidr) ==>
              exists k: nat ::
                LastBridge(docker, host[i].cidr, k) && r[i].kind == docker[k].kind && r[i].owner == docker[k].owner
  {
    assert Merged(host, docker, i, r[i]) && FirstOfItsCidr(host, i);
    if HasBridge(docker, host[i].cidr) {
      HasLastBridge(docker, host[i].cidr);
    }
  }

  lemma {:induction false} OutsideHas(ss: seq<Subnet>, taken: set<Cidr>, s: Subnet)
    ensures s in Outside(ss, taken) <==> s in ss && s.cidr !in taken
  {
    if ss != [] {
      var front, last := ss[..|ss| - 1], ss[|ss| - 1];
      OutsideHas(front, taken, s);
      assert ss == front + [last];
      assert s in ss <==> s in front || s == last;
    }
  }

  lemma {:induction false} OutsideDistinct(ss: seq<Subnet>, taken: set<Cidr>)
    requires Distinct(ss)
    ensures Distinct(Outside(ss, taken))
  {
    if ss != [] {
      var front, last := ss[..|ss| - 1], ss[|ss| - 1];
      OutsideDistinct(front, taken);
      forall s | s in Outside(front, taken)
        ensures s.cidr != last.cidr
      {
        OutsideHas(front, taken, s);
      }
    }
  }

  /** No CIDR is lost, none is invented. */
  lemma MergeKeepsCidrs(host: seq<Subnet>, docker: seq<Subnet>, r: seq<Subnet>, c: Cidr)
    requires IsMerge(host, docker, r)
    ensures c in Cidrs(r) <==> c in Cidrs(host) || c in Cidrs(docker)
  {
    var rest := Outside(docker, Cidrs(host));
    assert r == r[..|host|] + rest;
    if c in Cidrs(host) {
      var i :| 0 <= i < |host| && host[i].cidr == c;
      assert Merged(host, docker, i, r[i]) && r[i] in r;
    } else if s :| s in docker && s.cidr == c {
      OutsideHas(docker, Cidrs(host), s);
      assert s in r;
    }
    if s :| s in r && s.cidr == c {
      if s in rest {
        OutsideHas(docker, Cidrs(host), s);
      } else {
        var i :| 0 <= i < |host| && r[i] == s;
        assert Merged(host, docker, i, r[i]) && host[i] in host;
      }
    }
  }

  /** Lists without repeated CIDRs merge into one without. */
  lemma MergeDistinct(host: seq<Subnet>, docker: seq<Subnet>, r: seq<Subnet>)
    requires IsMerge(host, docker, r) && Distinct(host) && Distinct(docker)
    ensures Distinct(r)
  {
    var rest := Outside(docker, Cidrs(host));
    OutsideDistinct(docker, Cidrs(host));
    forall i, j | 0 <= i < j < |r|
      ensures r[i].cidr != r[j].cidr
    {
      if i < |host| {
        assert Merged(host, docker, i, r[i]) && host[i] in host;
        if j < |host| {
          assert Merged(host, docker, j, r[j]);
        } else {
          assert r[j] == rest[j - |host|] && r[j] in rest;
          OutsideHas(docker, Cidrs(host), r[j]);
        }
      } else {
        assert r[i] == rest[i - |host|] && r[j] == rest[j - |host|];
      }
    }
  }
}
