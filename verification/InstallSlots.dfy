/**
 Which slot of the host an install command is for, and which port its daemon gets. A host is the map
 from slots to the configuration written there; a listing is that map as discovered on disk.
 */
module InstallSlots {
  import opened Wrappers
  import opened Text
  import opened Sets
  import opened Decimal

  const DEFAULT_NAME := "scanopy-daemon"
  const SLOT_PREFIX := DEFAULT_NAME + "-"
  const DEFAULT_PORT: nat := 60073
  const LAST_PORT: nat := 65535

  /** How many ports there are from the default up. */
  const PORTS: nat := LAST_PORT - DEFAULT_PORT + 1

  /** `ids` holds the spellings of the server-assigned id, if there is one. */
  datatype Installed = Installed(
    slot: string, name: Option<string>, ids: seq<string>, apiKey: Option<string>, port: Option<nat>)

  // ----- service ids -----

  predicate IsNumbered(slot: string) {
    SLOT_PREFIX <= slot && slot != SLOT_PREFIX && AllDigits(slot[|SLOT_PREFIX|..])
  }

  function ServiceId(slot: string): string {
    if slot == DEFAULT_NAME || IsNumbered(slot) then slot else SLOT_PREFIX + slot
  }

  predicate IsNumber(s: string) {
    s != "" && AllDigits(s)
  }

  lemma NumberIsNamespaced(d: string)
    requires IsNumber(d)
    ensures ServiceId(d) == SLOT_PREFIX + d == ServiceId(SLOT_PREFIX + d)
  {
    assert (SLOT_PREFIX + d)[|SLOT_PREFIX|..] == d;
    assert DEFAULT_NAME[0] == 's' && SLOT_PREFIX[0] == 's';
    assert IsDigit(d[0]);
  }

  /** One slot is a number and the other the allocated slot of that number. */
  predicate NumberTwin(a: string, b: string) {
    IsNumber(a) && b == SLOT_PREFIX + a
  }

  /** The collision law, over all strings: two slots share a service id only as number twins. */
  lemma ServiceIdCollidesIff(a: string, b: string)
    requires a != b
    ensures ServiceId(a) == ServiceId(b) <==> NumberTwin(a, b) || NumberTwin(b, a)
  {
    assert (SLOT_PREFIX + a)[|SLOT_PREFIX|..] == a && (SLOT_PREFIX + b)[|SLOT_PREFIX|..] == b;
    if NumberTwin(a, b) {
      NumberIsNamespaced(a);
    } else if NumberTwin(b, a) {
      NumberIsNamespaced(b);
    } else if ServiceId(a) == ServiceId(b) {
      var aKept, bKept := a == DEFAULT_NAME || IsNumbered(a), b == DEFAULT_NAME || IsNumbered(b);
      if aKept && !bKept {
      } else if bKept && !aKept {
      }
    }
  }

  // ----- resolution -----

  datatype Target = Existing(index: nat) | New(slot: string)
  datatype Resolution = Resolved(target: Target) | Ambiguous

  /** Equality up to ASCII case. */
  predicate Same(a: string, b: string) {
    |a| == |b| && forall i :: 0 <= i < |a| ==> Lower(a[i]) == Lower(b[i])
  }

  /** The same character, or the two cases of one ASCII letter. */
  predicate SameLetter(c: char, d: char) {
    || c == d
    || ('a' <= c <= 'z' && (d as int) + 32 == c as int)
    || ('a' <= d <= 'z' && (c as int) + 32 == d as int)
  }

  lemma SameIff(a: string, b: string)
    ensures Same(a, b) <==> |a| == |b| && forall i :: 0 <= i < |a| ==> SameLetter(a[i], b[i])
  {
    if Same(a, b) {
      forall i | 0 <= i < |a|
        ensures SameLetter(a[i], b[i])
      {
        assert Lower(a[i]) == Lower(b[i]);
      }
    }
  }

  /** Everything a trimmed selector may spell to name this install. */
  function Spellings(i: Installed): seq<string> {
    [i.slot, ServiceId(i.slot)] + (if i.name.Some? then [i.name.value] else []) + i.ids
  }

  predicate Matches(i: Installed, selector: string) {
    exists k :: 0 <= k < |Spellings(i)| && Same(Spellings(i)[k], selector)
  }

  /** A selector names an install by its slot, its service id, its name or any spelling of its id, up to case. */
  lemma MatchesIff(i: Installed, selector: string)
    ensures Matches(i, selector) <==>
            || Same(i.slot, selector) || Same(ServiceId(i.slot), selector)
            || (i.name.Some? && Same(i.name.value, selector))
            || (exists k :: 0 <= k < |i.ids| && Same(i.ids[k], selector))
  {
    var all, named := Spellings(i), if i.name.Some? then 1 else 0;
    assert all[0] == i.slot && all[1] == ServiceId(i.slot);
    assert i.name.Some? ==> all[2] == i.name.value;
    assert forall k :: 0 <= k < |i.ids| ==> all[2 + named + k] == i.ids[k];
    if k :| 0 <= k < |all| && Same(all[k], selector) {
      assert k >= 2 + named ==> all[k] == i.ids[k - 2 - named];
    }
  }

  /** What an existing install can be recognised by. */
  datatype Clue = BySelector(selector: string) | ByName(name: string) | ByKey(key: string)

  predicate Fits(i: Installed, clue: Clue) {
    match clue
    case BySelector(selector) => Matches(i, selector)
    case ByName(name) => i.slot == name
    case ByKey(key) => key != "" && i.apiKey == Some(key)
  }

  /** The first entry a clue fits. */
  function Position(installed: seq<Installed>, clue: Clue): (r: Option<nat>)
    ensures r.Some? ==> r.value < |installed| && Fits(installed[r.value], clue)
    ensures r.Some? ==> forall k :: 0 <= k < r.value ==> !Fits(installed[k], clue)
    ensures r.None? ==> forall k :: 0 <= k < |installed| ==> !Fits(installed[k], clue)
    decreases |installed|
  {
    if installed == [] then None
    else
      var n := |installed| - 1;
      var earlier := Position(installed[..n], clue);
      if earlier.Some? then earlier else if Fits(installed[n], clue) then Some(n) else None
  }

  function Sought(installed: seq<Installed>, clue: Option<Clue>): Option<nat> {
    if clue.None? then None else Position(installed, clue.value)
  }

  /** A selector, then a name, then an api key; failing those, the default slot of an empty host. */
  function Resolve(installed: seq<Installed>, selector: Option<string>, name: Option<string>, key: Option<string>)
    : Resolution
  {
    var bySelector := Sought(installed, if selector.Some? then Some(BySelector(Trim(selector.value))) else None);
    var byName := Sought(installed, if name.Some? then Some(ByName(name.value)) else None);
    var byKey := Sought(installed, if key.Some? then Some(ByKey(key.value)) else None);
    if bySelector.Some? then Resolved(Existing(bySelector.value))
    else if byName.Some? then Resolved(Existing(byName.value))
    else if byKey.Some? then Resolved(Existing(byKey.value))
    else if installed == [] then Resolved(New(DEFAULT_NAME))
    else Ambiguous
  }

  /** Whether the command itself points at this install. */
  predicate Named(i: Installed, selector: Option<string>, name: Option<string>, key: Option<string>) {
    || (selector.Some? && Matches(i, Trim(selector.value)))
    || (name.Some? && i.slot == name.value)
    || (key.Some? && key.value != "" && i.apiKey == Some(key.value))
  }

  /** An existing daemon is never the target by inference, and always is when the command names one. */
  lemma ExistingIffNamed(installed: seq<Installed>, selector: Option<string>, name: Option<string>, key: Option<string>)
    ensures
      var r := Resolve(installed, selector, name, key);
      && ((r.Resolved? && r.target.Existing?) <==>
            exists k :: 0 <= k < |installed| && Named(installed[k], selector, name, key))
      && (r.Resolved? && r.target.Existing? ==>
            r.target.index < |installed| && Named(installed[r.target.index], selector, name, key))
      && (r.Resolved? && r.target.New? ==> installed == [] && r.target.slot == DEFAULT_NAME)
  {
  }

  /** What the command gives to recognise an install by, strongest first. */
  function Clues(selector: Option<string>, name: Option<string>, key: Option<string>): seq<Clue> {
    (if selector.Some? then [BySelector(Trim(selector.value))] else [])
    + (if name.Some? then [ByName(name.value)] else [])
    + (if key.Some? then [ByKey(key.value)] else [])
  }

  function FirstBy(installed: seq<Installed>, clues: seq<Clue>): Option<nat> {
    if clues == [] then None
    else
      var first := Position(installed, clues[0]);
      if first.Some? then first else FirstBy(installed, clues[1..])
  }

  lemma ResolveByClues(installed: seq<Installed>, selector: Option<string>, name: Option<string>, key: Option<string>)
    ensures
      var first := FirstBy(installed, Clues(selector, name, key));
      Resolve(installed, selector, name, key) ==
      if first.Some? then Resolved(Existing(first.value))
      else if installed == [] then Resolved(New(DEFAULT_NAME)) else Ambiguous
  {
    var byKey := if key.Some? then [ByKey(key.value)] else [];
    var byName := if name.Some? then [ByName(name.value)] else [];
    if key.Some? {
      assert byKey[1..] == [];
    }
    assert FirstBy(installed, byKey) == Sought(installed, if key.Some? then Some(ByKey(key.value)) else None);
    if name.Some? {
    } else {
      assert byName + byKey == byKey;
    }
    if selector.Some? {
      assert Clues(selector, name, key) == [BySelector(Trim(selector.value))] + (byName + byKey);
    } else {
      assert Clues(selector, name, key) == byName + byKey;
    }
  }

  lemma {:induction false} FirstByExact(installed: seq<Installed>, clues: seq<Clue>, c: nat, k: nat)
    requires c < |clues| && k < |installed| && Fits(installed[k], clues[c])
    requires forall d, j :: 0 <= d < c && 0 <= j < |installed| ==> !Fits(installed[j], clues[d])
    ensures FirstBy(installed, clues) == Position(installed, clues[c])
  {
    if c > 0 {
      forall d, j | 0 <= d < c - 1 && 0 <= j < |installed|
        ensures !Fits(installed[j], clues[1..][d])
      {
        assert clues[1..][d] == clues[d + 1];
      }
      FirstByExact(installed, clues[1..], c - 1, k);
    }
  }

  /** The strongest clue that fits any install decides, and picks the first install it fits. */
  lemma StrongestClueWins(installed: seq<Installed>, selector: Option<string>, name: Option<string>,
                          key: Option<string>, c: nat, k: nat)
    requires c < |Clues(selector, name, key)| && k < |installed|
    requires Fits(installed[k], Clues(selector, name, key)[c])
    requires forall d, j :: 0 <= d < c && 0 <= j < |installed| ==> !Fits(installed[j], Clues(selector, name, key)[d])
    ensures
      var clue := Clues(selector, name, key)[c];
      var r := Resolve(installed, selector, name, key);
      && r.Resolved? && r.target.Existing? && r.target.index <= k && Fits(installed[r.target.index], clue)
      && forall j :: 0 <= j < r.target.index ==> !Fits(installed[j], clue)
  {
    ResolveByClues(installed, selector, name, key);
    FirstByExact(installed, Clues(selector, name, key), c, k);
  }

  // ----- free slots -----

  function SlotName(n: nat): string {
    SLOT_PREFIX + ToString(n)
  }

  lemma SlotNameInjective(m: nat, n: nat)
    requires SlotName(m) == SlotName(n)
    ensures m == n
  {
    assert SlotName(m)[|SLOT_PREFIX|..] == ToString(m) && SlotName(n)[|SLOT_PREFIX|..] == ToString(n);
    ToStringInjective(m, n);
  }

  function Slots(installed: seq<Installed>): set<string> {
    set i | i in installed :: i.slot
  }

  ghost function NamesBelow(n: nat): set<string> {
    set m | 2 <= m < n :: SlotName(m)
  }

  lemma FreshName(taken: set<string>, n: nat)
    requires n >= 2 && SlotName(n) in taken
    ensures |taken - NamesBelow(n + 1)| < |taken - NamesBelow(n)|
  {
    if m :| 2 <= m < n && SlotName(m) == SlotName(n) {
      SlotNameInjective(m, n);
    }
    assert SlotName(n) in taken - NamesBelow(n);
    assert taken - NamesBelow(n + 1) == taken - NamesBelow(n) - {SlotName(n)};
  }

  /** The search ends because every hit uses up one of the taken slots. */
  function FirstFree(taken: set<string>, n: nat): (k: nat)
    requires n >= 2
    ensures k >= n && SlotName(k) !in taken
    ensures forall m :: n <= m < k ==> SlotName(m) in taken
    decreases |taken - NamesBelow(n)|
  {
    if SlotName(n) !in taken then n
    else
      FreshName(taken, n);
      FirstFree(taken, n + 1)
  }

  function NextFreeSlot(installed: seq<Installed>): string {
    if DEFAULT_NAME !in Slots(installed) then DEFAULT_NAME else SlotName(FirstFree(Slots(installed), 2))
  }

  /** The next slot is the default one if it is free, else the least number from 2 whose slot is free. */
  lemma NextFreeSlotExact(installed: seq<Installed>)
    ensures "scanopy-daemon" !in Slots(installed) ==> NextFreeSlot(installed) == "scanopy-daemon"
    ensures "scanopy-daemon" in Slots(installed) ==>
              exists n: nat ::
                && n >= 2 && NextFreeSlot(installed) == "scanopy-daemon-" + ToString(n)
                && NextFreeSlot(installed) !in Slots(installed)
                && forall m: nat :: 2 <= m < n ==> "scanopy-daemon-" + ToString(m) in Slots(installed)
  {
    assert SLOT_PREFIX == "scanopy-daemon-";
    if "scanopy-daemon" in Slots(installed) {
      var n := FirstFree(Slots(installed), 2);
      forall m: nat | 2 <= m < n
        ensures "scanopy-daemon-" + ToString(m) in Slots(installed)
      {
        assert SlotName(m) in Slots(installed);
      }
    }
  }

  /** A freshly allocated slot's service id is new unless the number twin of that slot is installed. */
  lemma FreshServiceId(installed: seq<Installed>, other: string)
    requires other in Slots(installed)
    ensures ServiceId(other) == ServiceId(NextFreeSlot(installed)) <==> NumberTwin(other, NextFreeSlot(installed))
  {
    var slot := NextFreeSlot(installed);
    ServiceIdCollidesIff(other, slot);
    assert slot[0] == 's';
    assert !IsNumber(slot) by { assert !IsDigit(slot[0]); }
  }

  // ----- free ports -----

  predicate PortConflict(installed: seq<Installed>, slot: string, port: nat) {
    exists k :: 0 <= k < |installed| && installed[k].slot != slot && installed[k].port == Some(port)
  }

  /** The lowest port from `port` up that no other install has claimed, if there is one. */
  function PortFrom(installed: seq<Installed>, slot: string, port: nat): (r: Option<nat>)
    requires port <= LAST_PORT + 1
    ensures r.Some? ==> port <= r.value <= LAST_PORT && !PortConflict(installed, slot, r.value)
    ensures r.Some? ==> forall p :: port <= p < r.value ==> PortConflict(installed, slot, p)
    ensures r.None? ==> forall p :: port <= p <= LAST_PORT ==> PortConflict(installed, slot, p)
    decreases LAST_PORT + 1 - port, |installed|
  {
    if port > LAST_PORT then None
    else if !PortConflict(installed, slot, port) then Some(port)
    else PortFrom(installed, slot, port + 1)
  }

  function NextFreePort(installed: seq<Installed>, slot: string): Option<nat> {
    PortFrom(installed, slot, DEFAULT_PORT)
  }

  // ----- non-interactive installs on a host -----

  datatype Config = Config(key: string, port: nat)

  type Host = map<string, Config>

  /** The listing holds every slot of the host once, with the key and port written there. */
  ghost predicate Lists(listing: seq<Installed>, host: Host) {
    && Slots(listing) == host.Keys
    && (forall i, j :: 0 <= i < j < |listing| ==> listing[i].slot != listing[j].slot)
    && (forall i :: 0 <= i < |listing| ==>
          && listing[i].slot in host
          && listing[i].apiKey == Some(host[listing[i].slot].key)
          && listing[i].port == Some(host[listing[i].slot].port))
  }

  /** Where a command that carries only an api key goes when there is no terminal to ask on. */
  function TargetSlot(listing: seq<Installed>, key: string): string {
    match Resolve(listing, None, None, Some(key))
    case Resolved(Existing(i)) => if i < |listing| then listing[i].slot else DEFAULT_NAME
    case Resolved(New(slot)) => slot
    case Ambiguous => NextFreeSlot(listing)
  }

  /** The configuration layered over what the slot already holds, the port moved if another install claims it. */
  function Install(host: Host, listing: seq<Installed>, key: string): Option<Host> {
    var slot := TargetSlot(listing, key);
    var port := if slot in host then host[slot].port else DEFAULT_PORT;
    if !PortConflict(listing, slot, port) then Some(host[slot := Config(key, port)])
    else
      match NextFreePort(listing, slot)
      case None => None
      case Some(p) => Some(host[slot := Config(key, p)])
  }

  function Uninstall(host: Host, slots: set<string>): Host {
    host - slots
  }

  predicate Allocated(slot: string) {
    slot == DEFAULT_NAME || IsNumbered(slot)
  }

  ghost predicate Inv(host: Host) {
    && (forall s :: s in host ==> Allocated(s) && host[s].key != "" && DEFAULT_PORT <= host[s].port <= LAST_PORT)
    && (forall s, t :: s in host && t in host && s != t ==> host[s].key != host[t].key && host[s].port != host[t].port)
  }

  predicate Holds(host: Host, key: string) {
    exists s :: s in host && host[s].key == key
  }

  lemma ListedKey(listing: seq<Installed>, host: Host, key: string)
    requires Lists(listing, host) && Inv(host) && key != ""
    ensures Holds(host, key) ==> TargetSlot(listing, key) in host && host[TargetSlot(listing, key)].key == key
    ensures !Holds(host, key) ==> TargetSlot(listing, key) == NextFreeSlot(listing)
  {
    ExistingIffNamed(listing, None, None, Some(key));
    if s :| s in host && host[s].key == key {
      assert s in Slots(listing);
      var i :| i in listing && i.slot == s;
      assert Named(i, None, None, Some(key));
    }
  }

  lemma ListedPort(listing: seq<Installed>, host: Host, slot: string, port: nat)
    requires Lists(listing, host)
    ensures PortConflict(listing, slot, port) <==> exists s :: s in host && s != slot && host[s].port == port
  {
  }

  /** Installing with a key the host holds rewrites that slot with what is already there. */
  lemma ReinstallChangesNothing(host: Host, listing: seq<Installed>, key: string)
    requires Inv(host) && Lists(listing, host) && key != "" && Holds(host, key)
    ensures Install(host, listing, key) == Some(host)
  {
    ListedKey(listing, host, key);
    var slot := TargetSlot(listing, key);
    ListedPort(listing, host, slot, host[slot].port);
    assert host[slot := Config(key, host[slot].port)] == host;
  }

  lemma FreeSlotIsAllocatedAndNew(listing: seq<Installed>, host: Host)
    requires Lists(listing, host)
    ensures Allocated(NextFreeSlot(listing)) && NextFreeSlot(listing) !in host
  {
  }

  /** Both port branches of an install on a new slot come to the least free port. */
  lemma NewPort(listing: seq<Installed>, slot: string)
    ensures !PortConflict(listing, slot, DEFAULT_PORT) ==> NextFreePort(listing, slot) == Some(DEFAULT_PORT)
  {
  }

  lemma AddedInstallKeepsInv(host: Host, slot: string, key: string, port: nat)
    requires Inv(host) && slot !in host && Allocated(slot) && key != "" && !Holds(host, key)
    requires DEFAULT_PORT <= port <= LAST_PORT && forall s :: s in host ==> host[s].port != port
    ensures Inv(host[slot := Config(key, port)])
  {
  }

  // ----- counting ports -----

  function Ports(host: Host): set<nat> {
    set s | s in host :: host[s].port
  }

  /** Distinct ports: as many as slots. */
  lemma {:induction false} PortsSize(host: Host)
    requires forall s, t :: s in host && t in host && s != t ==> host[s].port != host[t].port
    ensures |Ports(host)| == |host|
    decreases |host|
  {
    if host.Keys == {} {
      assert |host.Keys| == 0;
      assert Ports(host) == {};
    } else {
      var s :| s in host.Keys;
      var rest := host - {s};
      assert rest.Keys == host.Keys - {s};
      assert |rest.Keys| == |rest| && |host.Keys| == |host|;
      PortsSize(rest);
      assert host[s].port !in Ports(rest);
      forall p
        ensures p in Ports(host) <==> p in Ports(rest) + {host[s].port}
      {
        if t :| t in host && host[t].port == p {
          assert t == s || t in rest;
        }
      }
      assert Ports(host) == Ports(rest) + {host[s].port};
    }
  }

  /** Distinct ports in a range are all of it exactly when there are as many as the range holds. */
  lemma PortsFill(host: Host, lo: nat, hi: nat)
    requires forall s, t :: s in host && t in host && s != t ==> host[s].port != host[t].port
    requires lo <= hi && forall s :: s in host ==> lo <= host[s].port < hi
    ensures (forall p :: lo <= p < hi ==> p in Ports(host)) <==> |host| == hi - lo
  {
    var range := Between(lo, hi);
    PortsSize(host);
    assert Ports(host) <= range;
    SubsetSize(Ports(host), range);
    if forall p :: lo <= p < hi ==> p in Ports(host) {
      assert Ports(host) == range;
    }
  }

  /** The port search fails if and only if the host holds one install per port. */
  lemma ExhaustedIff(listing: seq<Installed>, host: Host, slot: string)
    requires Inv(host) && Lists(listing, host) && slot !in host
    ensures NextFreePort(listing, slot).None? <==> |host| == 5463
  {
    PortsFill(host, DEFAULT_PORT, LAST_PORT + 1);
    forall p | DEFAULT_PORT <= p <= LAST_PORT
      ensures PortConflict(listing, slot, p) <==> p in Ports(host)
    {
      ListedPort(listing, host, slot, p);
    }
  }

  /** A new slot's port is the least from 60073 to 65535 that no install on the host has. */
  lemma NewPortExact(listing: seq<Installed>, host: Host, slot: string, p: nat)
    requires Lists(listing, host) && slot !in host
    ensures NextFreePort(listing, slot) == Some(p) <==>
            60073 <= p <= 65535 && p !in Ports(host) && forall q :: 60073 <= q < p ==> q in Ports(host)
  {
    forall q: nat
      ensures PortConflict(listing, slot, q) <==> q in Ports(host)
    {
      ListedPort(listing, host, slot, q);
    }
  }

  lemma FreshTarget(host: Host, listing: seq<Installed>, key: string)
    requires Inv(host) && Lists(listing, host) && key != "" && !Holds(host, key)
    ensures
      var slot := NextFreeSlot(listing);
      var port := NextFreePort(listing, slot);
      Install(host, listing, key) == (if port.None? then None else Some(host[slot := Config(key, port.value)]))
  {
    var slot := NextFreeSlot(listing);
    ListedKey(listing, host, key);
    FreeSlotIsAllocatedAndNew(listing, host);
    NewPort(listing, slot);
  }

  /**
   Installing with a new key adds one slot, the least free one, with the least free port, and touches no
   other; it fails exactly when all ports from the default up are claimed.
   */
  lemma FreshInstall(host: Host, listing: seq<Installed>, key: string)
    requires Inv(host) && Lists(listing, host) && key != "" && !Holds(host, key)
    ensures
      var slot := NextFreeSlot(listing);
      var port := NextFreePort(listing, slot);
      && slot !in host
      && Install(host, listing, key) == (if port.None? then None else Some(host[slot := Config(key, port.value)]))
      && (port.Some? ==> Inv(host[slot := Config(key, port.value)]))
      && (port.None? <==> |host| == PORTS)
  {
    var slot := NextFreeSlot(listing);
    FreeSlotIsAllocatedAndNew(listing, host);
    var port := NextFreePort(listing, slot);
    ExhaustedIff(listing, host, slot);
    if port.Some? {
      ListedPort(listing, host, slot, port.value);
      AddedInstallKeepsInv(host, slot, key, port.value);
    }
    FreshTarget(host, listing, key);
  }

  // ----- whole runs -----

  datatype Op = Add(key: string) | Remove(slots: set<string>)

  /** A failing install changes nothing. */
  function Outcome(host: Host, listing: seq<Installed>, key: string): Host {
    match Install(host, listing, key) case Some(h) => h case None => host
  }

  /** One command on the host, whatever order discovery lists it in. */
  ghost predicate Next(before: Host, op: Op, after: Host) {
    match op
    case Add(key) =>
      key != "" && exists listing :: Lists(listing, before) && after == Outcome(before, listing, key)
    case Remove(slots) => after == Uninstall(before, slots)
  }

  ghost predicate IsRun(hosts: seq<Host>, ops: seq<Op>) {
    && |hosts| == |ops| + 1 && hosts[0] == map[]
    && forall k :: 0 <= k < |ops| ==> Next(hosts[k], ops[k], hosts[k + 1])
  }

  lemma ListsMore(host: Host, rest: Host, listing: seq<Installed>, slot: string)
    requires slot in host && rest == host - {slot} && Lists(listing, rest)
    ensures Lists(listing + [Installed(slot, None, [], Some(host[slot].key), Some(host[slot].port))], host)
  {
    var more := listing + [Installed(slot, None, [], Some(host[slot].key), Some(host[slot].port))];
    forall s
      ensures s in Slots(more) <==> s in host.Keys
    {
      assert s in Slots(more) <==> s in Slots(listing) || s == slot;
    }
  }

  lemma {:induction false} ListingExists(host: Host) returns (listing: seq<Installed>)
    ensures Lists(listing, host)
    decreases |host.Keys|
  {
    if host.Keys == {} {
      listing := [];
      assert Slots(listing) == {};
    } else {
      var slot :| slot in host.Keys;
      var rest := host - {slot};
      assert rest.Keys == host.Keys - {slot};
      listing := ListingExists(rest);
      ListsMore(host, rest, listing, slot);
      listing := listing + [Installed(slot, None, [], Some(host[slot].key), Some(host[slot].port))];
    }
  }

  /** Every command is possible on every host. */
  lemma AlwaysNext(before: Host, op: Op) returns (after: Host)
    requires op.Add? ==> op.key != ""
    ensures Next(before, op, after)
  {
    match op {
      case Add(key) =>
        var listing := ListingExists(before);
        after := Outcome(before, listing, key);
      case Remove(slots) => after := Uninstall(before, slots);
    }
  }

  lemma NextKeepsInv(before: Host, op: Op, after: Host)
    requires Inv(before) && Next(before, op, after)
    ensures Inv(after)
  {
    if op.Add? {
      var listing :| Lists(listing, before) && after == Outcome(before, listing, op.key);
      if Holds(before, op.key) {
        ReinstallChangesNothing(before, listing, op.key);
      } else {
        FreshInstall(before, listing, op.key);
      }
    }
  }

  lemma {:induction false} RunKeepsInv(hosts: seq<Host>, ops: seq<Op>, k: nat)
    requires IsRun(hosts, ops) && k < |hosts|
    ensures Inv(hosts[k])
  {
    if k > 0 {
      RunKeepsInv(hosts, ops, k - 1);
      NextKeepsInv(hosts[k - 1], ops[k - 1], hosts[k]);
    }
  }

  /**
   From an empty host, after any run of installs and uninstalls, any two installs differ in slot, key,
   port and service id.
   */
  lemma RunKeepsInstallsApart(hosts: seq<Host>, ops: seq<Op>, k: nat, s: string, t: string)
    requires IsRun(hosts, ops) && k < |hosts| && s in hosts[k] && t in hosts[k] && s != t
    ensures hosts[k][s].key != hosts[k][t].key && hosts[k][s].port != hosts[k][t].port
    ensures ServiceId(s) != ServiceId(t)
  {
    RunKeepsInv(hosts, ops, k);
    assert Allocated(s) && Allocated(t);
  }

  lemma AddedOne(before: Host, slot: string, config: Config)
    requires slot !in before
    ensures before[slot := config].Keys == before.Keys + {slot}
    ensures forall s :: s in before ==> before[slot := config][s] == before[s]
  {
  }

  lemma OneMore(before: Host, listing: seq<Installed>, key: string) returns (port: nat)
    requires Inv(before) && Lists(listing, before) && key != "" && !Holds(before, key) && |before| != PORTS
    ensures NextFreeSlot(listing) !in before
    ensures Outcome(before, listing, key) == before[NextFreeSlot(listing) := Config(key, port)]
  {
    FreshInstall(before, listing, key);
    port := NextFreePort(listing, NextFreeSlot(listing)).value;
  }

  /** One more install adds at most one slot and changes none; with a key already held it changes nothing. */
  lemma OneSlotPerInstall(hosts: seq<Host>, ops: seq<Op>, k: nat, s: string)
    requires IsRun(hosts, ops) && k < |ops| && ops[k].Add?
    ensures Holds(hosts[k], ops[k].key) ==> hosts[k + 1] == hosts[k]
    ensures s in hosts[k] ==> s in hosts[k + 1] && hosts[k + 1][s] == hosts[k][s]
    ensures |hosts[k]| != PORTS ==> Holds(hosts[k + 1], ops[k].key)
    ensures |hosts[k + 1].Keys| == |hosts[k].Keys| + if Holds(hosts[k], ops[k].key) || |hosts[k]| == PORTS then 0 else 1
  {
    RunKeepsInv(hosts, ops, k);
    var key := ops[k].key;
    assert Next(hosts[k], ops[k], hosts[k + 1]);
    var listing :| Lists(listing, hosts[k]) && hosts[k + 1] == Outcome(hosts[k], listing, key);
    if Holds(hosts[k], key) {
      ReinstallChangesNothing(hosts[k], listing, key);
    } else if |hosts[k]| != PORTS {
      var port := OneMore(hosts[k], listing, key);
      AddedOne(hosts[k], NextFreeSlot(listing), Config(key, port));
      assert hosts[k + 1][NextFreeSlot(listing)].key == key;
    } else {
      FreshInstall(hosts[k], listing, key);
    }
  }

  /** The command puts the slot there, with its key. */
  predicate Puts(before: Host, op: Op, after: Host, s: string) {
    op.Add? && s !in before && s in after && after[s].key == op.key
  }

  predicate TakesAway(op: Op, s: string) {
    op.Remove? && s in op.slots
  }

  /** What one command does to one slot. */
  predicate Slotwise(before: Host, op: Op, after: Host, s: string) {
    if s in before then if TakesAway(op, s) then s !in after else s in after && after[s] == before[s]
    else s in after ==> Puts(before, op, after, s)
  }

  lemma StepIsSlotwise(hosts: seq<Host>, ops: seq<Op>, k: nat, s: string)
    requires IsRun(hosts, ops) && k < |ops|
    ensures Slotwise(hosts[k], ops[k], hosts[k + 1], s)
  {
    assert Next(hosts[k], ops[k], hosts[k + 1]);
    if ops[k].Add? {
      OneSlotPerInstall(hosts, ops, k, s);
      RunKeepsInv(hosts, ops, k);
      var listing :| Lists(listing, hosts[k]) && hosts[k + 1] == Outcome(hosts[k], listing, ops[k].key);
      if !Holds(hosts[k], ops[k].key) {
        FreshInstall(hosts[k], listing, ops[k].key);
      }
    }
  }

  /** Command `j` put the slot there, and none from then on took it away. */
  ghost predicate PutBy(hosts: seq<Host>, ops: seq<Op>, j: nat, s: string)
    requires |hosts| == |ops| + 1
  {
    j < |ops| && Puts(hosts[j], ops[j], hosts[j + 1], s) && forall m :: j < m < |ops| ==> !TakesAway(ops[m], s)
  }

  lemma {:induction false} SlotwiseStays(hosts: seq<Host>, ops: seq<Op>, j: nat, s: string)
    requires |hosts| == |ops| + 1 && PutBy(hosts, ops, j, s)
    requires forall k :: 0 <= k < |ops| ==> Slotwise(hosts[k], ops[k], hosts[k + 1], s)
    ensures s in hosts[|ops|] && hosts[|ops|][s] == hosts[j + 1][s]
  {
    var n := |ops| - 1;
    if j < n {
      SlotwiseStays(hosts[..n + 1], ops[..n], j, s);
      assert Slotwise(hosts[n], ops[n], hosts[n + 1], s);
    }
  }

  lemma {:induction false} SlotwiseWasPut(hosts: seq<Host>, ops: seq<Op>, s: string) returns (j: nat)
    requires |hosts| == |ops| + 1 && s !in hosts[0] && s in hosts[|ops|]
    requires forall k :: 0 <= k < |ops| ==> Slotwise(hosts[k], ops[k], hosts[k + 1], s)
    ensures PutBy(hosts, ops, j, s)
  {
    var n := |ops| - 1;
    assert Slotwise(hosts[n], ops[n], hosts[n + 1], s);
    j := n;
    if s in hosts[n] {
      j := SlotwiseWasPut(hosts[..n + 1], ops[..n], s);
      assert forall m :: j <= m < n ==> ops[m] == ops[..n][m];
    }
  }

  /** At the end of a run a slot is installed if and only if some command put it there and none took it away since. */
  lemma InstalledIffPut(hosts: seq<Host>, ops: seq<Op>, s: string)
    requires IsRun(hosts, ops)
    ensures s in hosts[|ops|] <==> exists j: nat :: PutBy(hosts, ops, j, s)
    ensures forall j: nat :: PutBy(hosts, ops, j, s) ==> s in hosts[|ops|] && hosts[|ops|][s] == hosts[j + 1][s]
  {
    forall k | 0 <= k < |ops|
      ensures Slotwise(hosts[k], ops[k], hosts[k + 1], s)
    {
      StepIsSlotwise(hosts, ops, k, s);
    }
    forall j: nat | PutBy(hosts, ops, j, s)
      ensures s in hosts[|ops|] && hosts[|ops|][s] == hosts[j + 1][s]
    {
      SlotwiseStays(hosts, ops, j, s);
    }
    if s in hosts[|ops|] {
      var j := SlotwiseWasPut(hosts, ops, s);
    }
  }
}
