/**
 The daemon's own interfaces: unique subnets are made from the networks its interfaces report, each
 address goes to the longest subnet that contains it, and each subnet gets one MAC.
 */
module Interfaces {
  import opened Wrappers
  import opened Arithmetic

  datatype Address = Address(v6: bool, bits: nat)

  /** `first` is the network address, with every host bit zero in a canonical CIDR. */
  datatype Cidr = Cidr(v6: bool, first: nat, length: nat)

  function Block(c: Cidr): (n: nat)
    ensures n > 0
  {
    var width := if c.v6 then 128 else 32;
    Pow2(if c.length <= width then width - c.length else 0)
  }

  predicate Canonical(c: Cidr) {
    c.first % Block(c) == 0
  }

  predicate Contains(c: Cidr, a: Address) {
    c.v6 == a.v6 && c.first / Block(c) == a.bits / Block(c)
  }

  /** Equally long CIDRs that share an address are the same CIDR. */
  lemma SameLengthSameCidr(c: Cidr, d: Cidr, a: Address)
    requires Canonical(c) && Canonical(d) && c.length == d.length
    requires Contains(c, a) && Contains(d, a)
    ensures c == d
  {
  }

  type Mac = nat

  /** One address of one interface, as the first pass collects it; `vpn` is what its name says. */
  datatype Reported = Reported(name: string, vpn: bool, address: Address, prefix: nat, mac: Option<Mac>)

  function NetworkOf(bits: nat, length: nat): Cidr
    requires length <= 32
  {
    Cidr(false, RoundDown(bits, Pow2(32 - length)), length)
  }

  lemma NetworkContains(bits: nat, length: nat)
    requires length <= 32
    ensures Canonical(NetworkOf(bits, length)) && Contains(NetworkOf(bits, length), Address(false, bits))
  {
    var d := Pow2(32 - length);
    var q := bits / d;
    assert Block(NetworkOf(bits, length)) == d;
    assert q * d == d * q + 0;
    DivUnique(q * d, d, q, 0);
    assert q * d == d * ((q * d) / d) + (q * d) % d;
  }

  /** No subnet for IPv6 nor a lone /32, except that a tunnel's /32 stands for its /24. */
  function Made(n: Reported): (c: Option<Cidr>)
    ensures c.Some? ==> Canonical(c.value) && Contains(c.value, n.address)
  {
    if n.address.v6 || n.prefix > 32 then None
    else if n.prefix == 32 then
      if n.vpn then NetworkContains(n.address.bits, 24); Some(NetworkOf(n.address.bits, 24)) else None
    else NetworkContains(n.address.bits, n.prefix); Some(NetworkOf(n.address.bits, n.prefix))
  }

  lemma DivIsInterval(first: nat, bits: nat, d: nat)
    requires d > 0 && first % d == 0
    ensures first / d == bits / d <==> first <= bits < first + d
  {
    assert first == d * (first / d);
    assert bits == d * (bits / d) + bits % d;
    if first <= bits < first + d {
      DivUnique(bits, d, first / d, bits - first);
    }
  }

  /** A canonical CIDR contains the addresses of its family from its first on, as many as its block has. */
  lemma ContainsIff(c: Cidr, a: Address)
    requires Canonical(c)
    ensures Contains(c, a) <==> c.v6 == a.v6 && c.first <= a.bits < c.first + Block(c)
  {
    DivIsInterval(c.first, a.bits, Block(c));
  }

  /** A block has 2 to the power of the bits left after the prefix, of 32 or 128. */
  lemma BlockSize(c: Cidr)
    ensures !c.v6 && c.length <= 32 ==> Block(c) == Pow2(32 - c.length)
    ensures c.v6 && c.length <= 128 ==> Block(c) == Pow2(128 - c.length)
  {
  }

  /**
   Which CIDR a report makes, exactly: an IPv4 one that contains its address, as long as its prefix, or 24
   for a tunnel's /32; none for IPv6 or any other /32.
   */
  lemma MadeExact(n: Reported, c: Cidr)
    ensures Made(n) == Some(c) <==>
            && !n.address.v6 && !c.v6 && Canonical(c) && Contains(c, n.address)
            && ((n.prefix < 32 && c.length == n.prefix) || (n.prefix == 32 && n.vpn && c.length == 24))
  {
    if Made(n).Some? && !c.v6 && Canonical(c) && Contains(c, n.address) && c.length == Made(n).value.length {
      SameLengthSameCidr(c, Made(n).value, n.address);
    }
  }

  /** Subnets by CIDR; a subnet is known by the report it was made from. */
  type Subnets = map<Cidr, nat>

  ghost predicate FirstMade(ns: seq<Reported>, c: Cidr, i: nat) {
    i < |ns| && Made(ns[i]) == Some(c) && forall j :: 0 <= j < i ==> Made(ns[j]) != Some(c)
  }

  ghost predicate SubnetsOf(m: Subnets, ns: seq<Reported>) {
    && (forall i :: 0 <= i < |ns| && Made(ns[i]).Some? ==> Made(ns[i]).value in m)
    && (forall c :: c in m ==> FirstMade(ns, c, m[c]))
  }

  method UniqueSubnets(ns: seq<Reported>) returns (m: Subnets)
    ensures SubnetsOf(m, ns)
  {
    m := map[];
    for i := 0 to |ns|
      invariant forall k :: 0 <= k < i && Made(ns[k]).Some? ==> Made(ns[k]).value in m
      invariant forall c :: c in m ==> FirstMade(ns, c, m[c])
    {
      var made := Made(ns[i]);
      if made.Some? && made.value !in m {
        m := m[made.value := i];
      }
    }
  }

  // ----- the longest containing subnet -----

  ghost predicate IsHome(keys: set<Cidr>, a: Address, r: Option<Cidr>) {
    match r
    case None => forall c :: c in keys ==> !Contains(c, a)
    case Some(h) => h in keys && Contains(h, a) && forall c :: c in keys && Contains(c, a) ==> c.length <= h.length
  }

  /** Looks at the candidates in any order and keeps the last of the longest seen. */
  method FindHome(m: Subnets, a: Address) returns (r: Option<Cidr>)
    ensures IsHome(m.Keys, a, r)
  {
    r := None;
    var todo := m.Keys;
    while todo != {}
      invariant todo <= m.Keys
      invariant IsHome(m.Keys - todo, a, r)
      decreases |todo|
    {
      var c :| c in todo;
      todo := todo - {c};
      if Contains(c, a) && (r.None? || r.value.length <= c.length) {
        r := Some(c);
      }
    }
    assert m.Keys - todo == m.Keys;
  }

  ghost predicate AllCanonical(keys: set<Cidr>) {
    forall c :: c in keys ==> Canonical(c)
  }

  /** So the order does not matter: there is one home, strictly longer than every other candidate. */
  lemma HomeIsUnique(keys: set<Cidr>, a: Address, r: Option<Cidr>, q: Option<Cidr>)
    requires AllCanonical(keys) && IsHome(keys, a, r) && IsHome(keys, a, q)
    ensures r == q
    ensures r.Some? ==> forall c :: c in keys && Contains(c, a) && c != r.value ==> c.length < r.value.length
  {
    if r.Some? {
      forall c | c in keys && Contains(c, a) && c.length == r.value.length
        ensures c == r.value
      {
        SameLengthSameCidr(c, r.value, a);
      }
    }
  }

  lemma {:induction false} HomeExists(keys: set<Cidr>, a: Address)
    ensures exists r :: IsHome(keys, a, r)
    decreases |keys|
  {
    if keys == {} {
      assert IsHome(keys, a, None);
    } else {
      var c :| c in keys;
      HomeExists(keys - {c}, a);
      var r :| IsHome(keys - {c}, a, r);
      if Contains(c, a) && (r.None? || r.value.length <= c.length) {
        assert IsHome(keys, a, Some(c));
      } else {
        assert IsHome(keys, a, r);
      }
    }
  }

  ghost function Home(keys: set<Cidr>, a: Address): (r: Option<Cidr>)
    ensures IsHome(keys, a, r)
  {
    HomeExists(keys, a);
    var r :| IsHome(keys, a, r);
    r
  }

  // ----- assignment -----

  datatype Placed = Placed(name: string, subnet: nat, address: Address, mac: Option<Mac>, position: nat)

  ghost function Assigned(m: Subnets, ns: seq<Reported>): seq<Placed> {
    if ns == [] then []
    else
      var front, n := Assigned(m, ns[..|ns| - 1]), ns[|ns| - 1];
      var home := Home(m.Keys, n.address);
      if home.None? then front else front + [Placed(n.name, m[home.value], n.address, n.mac, |front|)]
  }

  ghost predicate Lives(m: Subnets, n: Reported, c: Cidr) {
    Home(m.Keys, n.address) == Some(c)
  }

  ghost predicate NoneKnown(m: Subnets, ns: seq<Reported>, c: Cidr) {
    forall j :: 0 <= j < |ns| && Lives(m, ns[j], c) ==> ns[j].mac == None
  }

  /** Report `i` lives in the subnet and has this MAC; none before it there is known, or none at all. */
  ghost predicate KnownAt(m: Subnets, ns: seq<Reported>, c: Cidr, mac: Option<Mac>, i: nat) {
    && i < |ns| && Lives(m, ns[i], c) && ns[i].mac == mac
    && NoneKnown(m, ns[..if mac.Some? then i else |ns|], c)
  }

  ghost predicate FirstMac(m: Subnets, ns: seq<Reported>, c: Cidr, mac: Option<Mac>) {
    exists i: nat :: KnownAt(m, ns, c, mac, i)
  }

  /** `macs` has the subnets that got an address, each with the first known MAC among its addresses. */
  ghost predicate FirstMacs(m: Subnets, ns: seq<Reported>, macs: map<Cidr, Option<Mac>>) {
    && (forall i, c :: 0 <= i < |ns| && Lives(m, ns[i], c) ==> c in macs)
    && (forall c :: c in macs ==> FirstMac(m, ns, c, macs[c]))
  }

  /** One more address: what the entry-or-modify step does to the MACs. */
  function Noted(macs: map<Cidr, Option<Mac>>, c: Cidr, mac: Option<Mac>): map<Cidr, Option<Mac>> {
    if c in macs then (if macs[c].None? && mac.Some? then macs[c := mac] else macs) else macs[c := mac]
  }

  lemma FirstMacKept(m: Subnets, ns: seq<Reported>, n: Reported, c: Cidr, mac: Option<Mac>)
    requires FirstMac(m, ns, c, mac) && (mac.Some? || !Lives(m, n, c) || n.mac.None?)
    ensures FirstMac(m, ns + [n], c, mac)
  {
    var i: nat :| KnownAt(m, ns, c, mac, i);
    assert ns[..|ns|] == ns && (ns + [n])[..|ns| + 1] == ns + [n] && (ns + [n])[..i] == ns[..i];
    assert (ns + [n])[i] == ns[i];
    assert KnownAt(m, ns + [n], c, mac, i);
  }

  lemma FirstMacFound(m: Subnets, ns: seq<Reported>, n: Reported, c: Cidr)
    requires Lives(m, n, c) && NoneKnown(m, ns, c)
    ensures FirstMac(m, ns + [n], c, n.mac)
  {
    var all := ns + [n];
    assert all[..|ns|] == ns && all[..|ns| + 1] == all && all[|ns|] == n;
    assert KnownAt(m, all, c, n.mac, |ns|);
  }

  lemma NoteKeepsFirst(m: Subnets, ns: seq<Reported>, n: Reported, macs: map<Cidr, Option<Mac>>)
    requires FirstMacs(m, ns, macs)
    ensures
      var home := Home(m.Keys, n.address);
      FirstMacs(m, ns + [n], if home.None? then macs else Noted(macs, home.value, n.mac))
  {
    var home := Home(m.Keys, n.address);
    var next := if home.None? then macs else Noted(macs, home.value, n.mac);
    var all := ns + [n];
    forall c | c in next
      ensures FirstMac(m, all, c, next[c])
    {
      if c in macs && next[c] == macs[c] {
        FirstMacKept(m, ns, n, c, macs[c]);
      } else {
        if c in macs {
          assert FirstMac(m, ns, c, None);
          assert ns[..|ns|] == ns;
        }
        FirstMacFound(m, ns, n, c);
      }
    }
    forall i, c | 0 <= i < |all| && Lives(m, all[i], c)
      ensures c in next
    {
      if i < |ns| {
        assert all[i] == ns[i];
      }
    }
  }

  /** The third pass. */
  method Assign(m: Subnets, ns: seq<Reported>) returns (out: seq<Placed>, macs: map<Cidr, Option<Mac>>)
    requires AllCanonical(m.Keys)
    ensures out == Assigned(m, ns)
    ensures FirstMacs(m, ns, macs)
  {
    out, macs := [], map[];
    for i := 0 to |ns|
      invariant out == Assigned(m, ns[..i])
      invariant FirstMacs(m, ns[..i], macs)
    {
      var n := ns[i];
      var home := FindHome(m, n.address);
      HomeIsUnique(m.Keys, n.address, home, Home(m.Keys, n.address));
      NoteKeepsFirst(m, ns[..i], n, macs);
      assert ns[..i + 1] == ns[..i] + [n];
      if home.Some? {
        var c := home.value;
        macs := Noted(macs, c, n.mac);
        out := out + [Placed(n.name, m[c], n.address, n.mac, |out|)];
      }
    }
    assert ns[..|ns|] == ns;
  }

  /** Both passes: any two runs give the same subnets, placements and MACs. */
  method OwnInterfaces(ns: seq<Reported>) returns (m: Subnets, out: seq<Placed>, macs: map<Cidr, Option<Mac>>)
    ensures SubnetsOf(m, ns)
    ensures out == Assigned(m, ns)
    ensures FirstMacs(m, ns, macs)
  {
    m := UniqueSubnets(ns);
    forall c | c in m
      ensures Canonical(c)
    {
      assert FirstMade(ns, c, m[c]);
    }
    out, macs := Assign(m, ns);
  }

  lemma SubnetsAreUnique(m: Subnets, k: Subnets, ns: seq<Reported>)
    requires SubnetsOf(m, ns) && SubnetsOf(k, ns)
    ensures m == k
  {
  }

  lemma NoneKnownAt(m: Subnets, ns: seq<Reported>, c: Cidr, n: nat, j: nat)
    requires j < n <= |ns| && NoneKnown(m, ns[..n], c) && Lives(m, ns[j], c)
    ensures ns[j].mac == None
  {
  }

  lemma SameFirstMac(m: Subnets, ns: seq<Reported>, c: Cidr, mac: Option<Mac>, other: map<Cidr, Option<Mac>>)
    requires FirstMac(m, ns, c, mac) && FirstMacs(m, ns, other)
    ensures c in other && other[c] == mac
  {
    var i: nat :| KnownAt(m, ns, c, mac, i);
    assert c in other && FirstMac(m, ns, c, other[c]);
    var j: nat :| KnownAt(m, ns, c, other[c], j);
    if other[c].None? {
      NoneKnownAt(m, ns, c, |ns|, i);
    } else if mac.None? {
      NoneKnownAt(m, ns, c, |ns|, j);
    } else if i < j {
      NoneKnownAt(m, ns, c, j, i);
    } else if j < i {
      NoneKnownAt(m, ns, c, i, j);
    }
  }

  lemma MacsAreUnique(m: Subnets, ns: seq<Reported>, macs: map<Cidr, Option<Mac>>, other: map<Cidr, Option<Mac>>)
    requires FirstMacs(m, ns, macs) && FirstMacs(m, ns, other)
    ensures macs == other
  {
    forall c | c in macs
      ensures c in other && macs[c] == other[c]
    {
      SameFirstMac(m, ns, c, macs[c], other);
    }
    forall c | c in other
      ensures c in macs
    {
      assert FirstMac(m, ns, c, other[c]);
    }
    assert macs.Keys == other.Keys;
  }

  lemma {:induction false} AssignedGrows(m: Subnets, ns: seq<Reported>, i: nat)
    requires i <= |ns|
    ensures Assigned(m, ns[..i]) <= Assigned(m, ns)
  {
    if i == |ns| {
      assert ns[..i] == ns;
    } else {
      AssignedGrows(m, ns[..|ns| - 1], i);
      assert ns[..|ns| - 1][..i] == ns[..i];
    }
  }

  /** Every address inside some subnet is placed, after those reported before it and in its home. */
  lemma AddressPlaced(m: Subnets, ns: seq<Reported>, i: nat)
    requires i < |ns| && Home(m.Keys, ns[i].address).Some?
    ensures
      var n, at := ns[i], |Assigned(m, ns[..i])|;
      at < |Assigned(m, ns)|
      && Assigned(m, ns)[at] == Placed(n.name, m[Home(m.Keys, n.address).value], n.address, n.mac, at)
  {
    assert ns[..i + 1] == ns[..i] + [ns[i]];
    AssignedGrows(m, ns, i + 1);
  }

  /** Placement `k` is of report `i`. */
  ghost predicate PlacedFrom(m: Subnets, ns: seq<Reported>, k: nat, i: nat)
    requires k < |Assigned(m, ns)|
  {
    && i < |ns| && Home(m.Keys, ns[i].address).Some?
    && |Assigned(m, ns[..i])| == k && ns[i].address == Assigned(m, ns)[k].address
  }

  lemma PlacedFromFront(m: Subnets, ns: seq<Reported>, k: nat, i: nat)
    requires ns != [] && k < |Assigned(m, ns[..|ns| - 1])| && PlacedFrom(m, ns[..|ns| - 1], k, i)
    ensures k < |Assigned(m, ns)| && Assigned(m, ns)[k] == Assigned(m, ns[..|ns| - 1])[k] && PlacedFrom(m, ns, k, i)
  {
    assert ns[..|ns| - 1][..i] == ns[..i] && ns[..|ns| - 1][i] == ns[i];
  }

  /** Positions number the placed addresses 0 to n - 1, and each comes from some report. */
  lemma {:induction false} PositionsInOrder(m: Subnets, ns: seq<Reported>, k: nat)
    requires k < |Assigned(m, ns)|
    ensures Assigned(m, ns)[k].position == k
    ensures exists i: nat :: PlacedFrom(m, ns, k, i)
  {
    var front := ns[..|ns| - 1];
    if k < |Assigned(m, front)| {
      PositionsInOrder(m, front, k);
      var i: nat :| PlacedFrom(m, front, k, i);
      PlacedFromFront(m, ns, k, i);
    } else {
      assert PlacedFrom(m, ns, k, |ns| - 1);
    }
  }

  /** An address whose own network made a subnet is placed, there or in a longer one. */
  lemma OwnSubnetIsAPlace(m: Subnets, ns: seq<Reported>, i: nat)
    requires SubnetsOf(m, ns) && i < |ns| && Made(ns[i]).Some?
    ensures Home(m.Keys, ns[i].address).Some?
    ensures Home(m.Keys, ns[i].address).value.length >= Made(ns[i]).value.length
  {
    assert Made(ns[i]).value in m.Keys;
  }
}
